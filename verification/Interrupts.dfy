/** Simulated time and the delivery of device interrupts (machine/interrupt.cc). */
module Interrupts {
  import opened Lists
  import opened Basics

  const USER_TICK := 1
  const SYSTEM_TICK := 10

  datatype IntStatus = IntOff | IntOn
  datatype MachineStatus = IdleMode | SystemMode | UserMode
  datatype IntType = TimerInt | DiskInt | ConsoleWriteInt | ConsoleReadInt | NetworkSendInt | NetworkRecvInt

  function TickOf(status: MachineStatus): int {
    if status == SystemMode then SYSTEM_TICK else USER_TICK
  }

  datatype PendingInterrupt = PendingInterrupt(handler: int, arg: int, when: int, kind: IntType)

  /** A call of Schedule made by a handler, and all a handler does to this module. */
  datatype Request = Request(handler: int, arg: int, fromNow: nat, kind: IntType)
  type FutureRequest = r: Request | r.fromNow > 0 witness Request(0, 0, 1, TimerInt)
  datatype Reaction = Reaction(requests: seq<FutureRequest>, wantsYield: bool)

  datatype Delivery = Delivery(entry: PendingInterrupt, at: int)

  type Queue = seq<Keyed<PendingInterrupt>>

  function Entry(now: int, r: FutureRequest): Keyed<PendingInterrupt> {
    Keyed(PendingInterrupt(r.handler, r.arg, now + r.fromNow, r.kind), now + r.fromNow)
  }

  ghost predicate KeyedByTime(q: Queue) {
    Sorted(q) && forall i :: 0 <= i < |q| ==> q[i].key == q[i].item.when
  }

  ghost predicate NoneBefore(q: Queue, t: int) {
    forall i :: 0 <= i < |q| ==> t <= q[i].key
  }

  // ----- what a handler leaves in the queue

  function WithRequests(q: Queue, now: int, rs: seq<FutureRequest>): Queue
    decreases |rs|
  {
    if rs == [] then q else Inserted(WithRequests(q, now, rs[..|rs| - 1]), Entry(now, rs[|rs| - 1]))
  }

  lemma WithRequestsStep(q: Queue, now: int, rs: seq<FutureRequest>, i: nat)
    requires i < |rs|
    ensures WithRequests(q, now, rs[..i + 1]) == Inserted(WithRequests(q, now, rs[..i]), Entry(now, rs[i]))
  {
    assert rs[..i + 1][..i] == rs[..i];
  }

  ghost function Entries(now: int, rs: seq<FutureRequest>): multiset<Keyed<PendingInterrupt>> {
    if rs == [] then multiset{} else Entries(now, rs[..|rs| - 1]) + multiset{Entry(now, rs[|rs| - 1])}
  }

  lemma {:induction false} WithRequestsItems(q: Queue, now: int, rs: seq<FutureRequest>)
    requires KeyedByTime(q)
    ensures KeyedByTime(WithRequests(q, now, rs))
    ensures multiset(WithRequests(q, now, rs)) == multiset(q) + Entries(now, rs)
    decreases |rs|
  {
    if rs != [] {
      var q1, x := WithRequests(q, now, rs[..|rs| - 1]), Entry(now, rs[|rs| - 1]);
      WithRequestsItems(q, now, rs[..|rs| - 1]);
      InsertedIsSorted(q1, x);
      InsertedItems(q1, x);
      InsertedKeys(q1, x);
    }
  }

  lemma InsertedKeys(q: Queue, x: Keyed<PendingInterrupt>)
    requires KeyedByTime(q) && x.key == x.item.when
    ensures KeyedByTime(Inserted(q, x))
  {
    InsertedIsSorted(q, x);
    forall i | 0 <= i < |Inserted(q, x)|
      ensures Inserted(q, x)[i].key == Inserted(q, x)[i].item.when
    {
      InsertedAt(q, x, i);
    }
  }

  /** Requests are for later, so they never come before an entry that is due. */
  lemma {:induction false} RequestsComeLater(q: Queue, now: int, rs: seq<FutureRequest>)
    requires KeyedByTime(q)
    ensures var q' := WithRequests(q, now, rs);
      && Position(q', now) == Position(q, now)
      && q'[..Position(q, now)] == q[..Position(q, now)]
    decreases |rs|
  {
    if rs != [] {
      var q1, x := WithRequests(q, now, rs[..|rs| - 1]), Entry(now, rs[|rs| - 1]);
      RequestsComeLater(q, now, rs[..|rs| - 1]);
      WithRequestsItems(q, now, rs[..|rs| - 1]);
      InsertedLater(q1, x, now);
    }
  }

  lemma InsertedLater(q: Queue, x: Keyed<PendingInterrupt>, now: int)
    requires Sorted(q) && now < x.key
    ensures Position(Inserted(q, x), now) == Position(q, now)
    ensures Inserted(q, x)[..Position(q, now)] == q[..Position(q, now)]
  {
    var p, r := Position(q, now), Inserted(q, x);
    PositionSpec(q, now);
    assert p <= Position(q, x.key) by {
      PositionMonotone(q, now, x.key);
    }
    forall i | 0 <= i <= p
      ensures i < p ==> r[i] == q[i]
      ensures i == p ==> now < r[i].key
    {
      InsertedAt(q, x, i);
    }
    PositionUnique(r, now, p);
  }

  lemma {:induction false} PositionMonotone<T>(s: seq<Keyed<T>>, k: int, k': int)
    requires k <= k'
    ensures Position(s, k) <= Position(s, k')
  {
    if s != [] && !(k < s[0].key) {
      PositionMonotone(s[1..], k, k');
    }
  }

  // ----- simulated time as a value: the clock, what is pending, what has been delivered

  datatype Timeline = Timeline(now: int, queue: Queue, log: seq<Delivery>)

  /** Interrupts are delivered in the order of their scheduled times, never early and at most
      SystemTick ticks late. */
  ghost predicate OnTime(log: seq<Delivery>) {
    && (forall i :: 0 <= i < |log| ==> log[i].entry.when <= log[i].at <= log[i].entry.when + SYSTEM_TICK)
    && (forall i, j :: 0 <= i < j < |log| ==> log[i].entry.when <= log[j].entry.when)
  }

  /** Nothing still pending should have been delivered before what has been delivered. */
  ghost predicate UpTo(log: seq<Delivery>, q: Queue, now: int) {
    log != [] ==> log[|log| - 1].entry.when <= now && NoneBefore(q, log[|log| - 1].entry.when)
  }

  /** A timeline in which the oldest pending interrupt is at most `late` ticks overdue. */
  ghost predicate Sound(t: Timeline, late: nat) {
    match t
    case Timeline(now, queue, log) =>
      KeyedByTime(queue) && NoneBefore(queue, now - late) && OnTime(log) && UpTo(log, queue, now)
  }

  /** What the handler of the n-th interrupt delivered does. */
  type Script = nat -> Reaction

  /** The one entry that is never delivered to an idle machine. */
  predicate LoneTimer(q: Queue) {
    |q| == 1 && q[0].item.kind == TimerInt
  }

  /** The head of the queue is delivered, and its handler runs. */
  function Deliver(t: Timeline, script: Script): Timeline
    requires t.queue != []
  {
    Timeline(t.now, WithRequests(t.queue[1..], t.now, script(|t.log|).requests),
             t.log + [Delivery(t.queue[0].item, t.now)])
  }

  function PutBack(t: Timeline): Timeline
    requires t.queue != []
  {
    t.(queue := Inserted(t.queue[1..], t.queue[0]))
  }

  /** One call of CheckIfDue. */
  function Check(t: Timeline, advance: bool, idle: bool, script: Script): (Timeline, bool) {
    if t.queue == [] then (t, false)
    else
      var t1 := if advance && t.queue[0].key > t.now then t.(now := t.queue[0].key) else t;
      if t1.queue[0].key > t1.now || (idle && LoneTimer(t1.queue)) then (PutBack(t1), false)
      else (Deliver(t1, script), true)
  }

  lemma LogHead(log: seq<Delivery>, e: PendingInterrupt, now: int)
    requires OnTime(log) && e.when <= now <= e.when + SYSTEM_TICK
    requires log != [] ==> log[|log| - 1].entry.when <= e.when
    ensures OnTime(log + [Delivery(e, now)])
  {
  }

  lemma {:induction false} RequestsNotBefore(q: Queue, now: int, rs: seq<FutureRequest>, t: int)
    requires t <= now && NoneBefore(q, t)
    ensures NoneBefore(WithRequests(q, now, rs), t)
    decreases |rs|
  {
    if rs != [] {
      var q1, x := WithRequests(q, now, rs[..|rs| - 1]), Entry(now, rs[|rs| - 1]);
      RequestsNotBefore(q, now, rs[..|rs| - 1], t);
      forall i | 0 <= i < |Inserted(q1, x)|
        ensures t <= Inserted(q1, x)[i].key
      {
        InsertedAt(q1, x, i);
      }
    }
  }

  lemma DeliverKeepsSound(t: Timeline, script: Script, late: nat)
    requires Sound(t, late) && t.queue != [] && late <= SYSTEM_TICK && t.queue[0].key <= t.now
    ensures Sound(Deliver(t, script), late)
  {
    var q, rs := t.queue, script(|t.log|).requests;
    WithRequestsItems(q[1..], t.now, rs);
    RequestsNotBefore(q[1..], t.now, rs, q[0].key);
    RequestsNotBefore(q[1..], t.now, rs, t.now - late);
    LogHead(t.log, q[0].item, t.now);
  }

  lemma PutBackNotBefore(q: Queue, t: int)
    requires KeyedByTime(q) && q != [] && NoneBefore(q, t)
    ensures KeyedByTime(Inserted(q[1..], q[0])) && NoneBefore(Inserted(q[1..], q[0]), t)
  {
    InsertedKeys(q[1..], q[0]);
    forall i | 0 <= i < |q|
      ensures t <= Inserted(q[1..], q[0])[i].key
    {
      InsertedAt(q[1..], q[0], i);
    }
  }

  lemma PutBackKeepsSound(t: Timeline, late: nat)
    requires Sound(t, late) && t.queue != []
    ensures Sound(PutBack(t), late) && multiset(PutBack(t).queue) == multiset(t.queue)
  {
    PutBackItems(t.queue);
    PutBackNotBefore(t.queue, t.now - late);
    if t.log != [] {
      PutBackNotBefore(t.queue, t.log[|t.log| - 1].entry.when);
    }
  }

  /** Advancing to the head of the queue leaves nothing overdue. */
  lemma AdvanceKeepsSound(t: Timeline)
    requires Sound(t, 0) && t.queue != [] && t.queue[0].key > t.now
    ensures Sound(t.(now := t.queue[0].key), 0)
  {
  }

  lemma CheckKeepsSound(t: Timeline, advance: bool, idle: bool, script: Script, late: nat)
    requires Sound(t, late) && late <= SYSTEM_TICK && (advance ==> late == 0)
    ensures Sound(Check(t, advance, idle, script).0, late)
  {
    if t.queue != [] {
      var t1 := if advance && t.queue[0].key > t.now then t.(now := t.queue[0].key) else t;
      if t1 != t {
        AdvanceKeepsSound(t);
      }
      if t1.queue[0].key > t1.now || (idle && LoneTimer(t1.queue)) {
        PutBackKeepsSound(t1, late);
      } else {
        DeliverKeepsSound(t1, script, late);
      }
    }
  }

  // ----- the loop: check until nothing is due

  /** The number of entries that are due. */
  function Due(t: Timeline): nat {
    Position(t.queue, t.now)
  }

  /** A delivery leaves one entry less due: what handlers ask for is never due yet. */
  lemma DeliverLowersDue(t: Timeline, script: Script)
    requires KeyedByTime(t.queue) && t.queue != [] && t.queue[0].key <= t.now
    ensures Due(t) > 0 && Due(Deliver(t, script)) == Due(t) - 1
    ensures Deliver(t, script).queue[..Due(t) - 1] == t.queue[1..Due(t)]
  {
    RequestsComeLater(t.queue[1..], t.now, script(|t.log|).requests);
    assert t.queue[1..][..Due(t) - 1] == t.queue[1..Due(t)];
  }

  function Drain(t: Timeline, idle: bool, script: Script): Timeline
    requires KeyedByTime(t.queue)
    decreases Due(t)
  {
    var (t1, fired) := Check(t, false, idle, script);
    if fired then
      DeliverLowersDue(t, script);
      WithRequestsItems(t.queue[1..], t.now, script(|t.log|).requests);
      Drain(t1, idle, script)
    else t1
  }

  lemma {:induction false} DrainKeepsSound(t: Timeline, idle: bool, script: Script, late: nat)
    requires Sound(t, late) && late <= SYSTEM_TICK
    ensures Sound(Drain(t, idle, script), late) && Drain(t, idle, script).now == t.now
    decreases Due(t)
  {
    var (t1, fired) := Check(t, false, idle, script);
    CheckKeepsSound(t, false, idle, script, late);
    if fired {
      DeliverLowersDue(t, script);
      DrainKeepsSound(t1, idle, script, late);
    }
  }

  ghost function Deliveries(q: Queue, now: int): (ds: seq<Delivery>)
    ensures |ds| == |q|
  {
    seq(|q|, i requires 0 <= i < |q| => Delivery(q[i].item, now))
  }

  lemma DeliveriesHead(q: Queue, k: nat, now: int)
    requires 0 < k <= |q|
    ensures Deliveries(q[..k], now) == [Delivery(q[0].item, now)] + Deliveries(q[1..k], now)
  {
  }

  lemma NothingDue(q: Queue, now: int)
    requires KeyedByTime(q) && q != [] && now < q[0].key
    ensures NoneBefore(q, now + 1) && Position(q, now) == 0
  {
  }

  /** The loop delivers exactly the entries that were due, in order, all at the same time. */
  lemma {:induction false} DrainDeliversDue(t: Timeline, script: Script)
    requires Sound(t, SYSTEM_TICK)
    ensures Drain(t, false, script).log == t.log + Deliveries(t.queue[..Due(t)], t.now)
    decreases Due(t)
  {
    if t.queue != [] && t.queue[0].key <= t.now {
      var t1 := Deliver(t, script);
      DeliverKeepsSound(t, script, SYSTEM_TICK);
      DeliverLowersDue(t, script);
      DrainDeliversDue(t1, script);
      DeliveriesHead(t.queue, Due(t), t.now);
    } else if t.queue != [] {
      NothingDue(t.queue, t.now);
    }
  }

  /** The loop leaves only entries that are not yet due. */
  lemma {:induction false} DrainLeavesFuture(t: Timeline, script: Script)
    requires Sound(t, SYSTEM_TICK)
    ensures NoneBefore(Drain(t, false, script).queue, t.now + 1)
    decreases Due(t)
  {
    if t.queue != [] && t.queue[0].key <= t.now {
      DeliverKeepsSound(t, script, SYSTEM_TICK);
      DeliverLowersDue(t, script);
      DrainLeavesFuture(Deliver(t, script), script);
    } else if t.queue != [] {
      NothingDue(t.queue, t.now);
      PutBackNotBefore(t.queue, t.now + 1);
    }
  }

  // ----- whole runs

  datatype Event = Tick(ticks: int) | Idle | Schedule(request: FutureRequest)

  /** The clock only moves by user and system ticks and by idling. */
  ghost predicate Allowed(e: Event) {
    e.Tick? ==> e.ticks == USER_TICK || e.ticks == SYSTEM_TICK
  }

  ghost predicate Halts(t: Timeline) {
    t.queue == [] || LoneTimer(t.queue)
  }

  function Step(t: Timeline, e: Event, script: Script): (t': Timeline)
    requires KeyedByTime(t.queue)
  {
    match e
    case Tick(ticks) => Drain(t.(now := t.now + ticks), false, script)
    case Schedule(r) => t.(queue := Inserted(t.queue, Entry(t.now, r)))
    case Idle =>
      var (t1, fired) := Check(t, true, true, script);
      if fired then
        WithRequestsItems(t.queue[1..], t1.now, script(|t.log|).requests);
        Drain(t1, true, script)
      else t1
  }

  lemma ScheduleKeepsSound(t: Timeline, r: FutureRequest)
    requires Sound(t, 0)
    ensures Sound(t.(queue := Inserted(t.queue, Entry(t.now, r))), 0)
  {
    assert WithRequests(t.queue, t.now, [r]) == Inserted(t.queue, Entry(t.now, r)) by { assert [r][..0] == []; }
    WithRequestsItems(t.queue, t.now, [r]);
    RequestsNotBefore(t.queue, t.now, [r], t.now);
    if t.log != [] {
      RequestsNotBefore(t.queue, t.now, [r], t.log[|t.log| - 1].entry.when);
    }
  }

  lemma StepKeepsSound(t: Timeline, e: Event, script: Script)
    requires Sound(t, 0) && Allowed(e)
    ensures Sound(Step(t, e, script), 0)
  {
    match e
    case Tick(ticks) =>
      var t1 := t.(now := t.now + ticks);
      DrainKeepsSound(t1, false, script, SYSTEM_TICK);
      DrainLeavesFuture(t1, script);
    case Schedule(r) =>
      ScheduleKeepsSound(t, r);
    case Idle =>
      var (t1, fired) := Check(t, true, true, script);
      CheckKeepsSound(t, true, true, script, 0);
      if fired {
        DrainKeepsSound(t1, true, script, 0);
      }
  }

  ghost predicate Run(trace: seq<Timeline>, events: seq<Event>, script: Script) {
    && |trace| == |events| + 1
    && (events != [] ==>
      var n := |events| - 1;
      && Allowed(events[n]) && KeyedByTime(trace[n].queue)
      && trace[n + 1] == Step(trace[n], events[n], script)
      && Run(trace[..n + 1], events[..n], script))
  }

  /** In every run, whatever the handlers do, interrupts are delivered in order, never early and
      at most SystemTick ticks late, and between events nothing is overdue. */
  lemma {:induction false} RunsAreOnTime(trace: seq<Timeline>, events: seq<Event>, script: Script)
    requires Run(trace, events, script) && Sound(trace[0], 0)
    ensures Sound(trace[|events|], 0)
    decreases |events|
  {
    if events != [] {
      var n := |events| - 1;
      RunsAreOnTime(trace[..n + 1], events[..n], script);
      StepKeepsSound(trace[n], events[n], script);
    }
  }

  // ----- the entry an idle machine leaves behind

  /** The first entry is due, but was not delivered. */
  predicate LeavesDue(t: Timeline) {
    t.queue != [] && t.queue[0].key <= t.now
  }

  /** Everything pending is due, the timer's entry last, and the handlers of the others ask for nothing. */
  ghost predicate Stalls(t: Timeline, script: Script) {
    && 0 < Due(t) == |t.queue| && t.queue[|t.queue| - 1].item.kind == TimerInt
    && forall j :: |t.log| <= j < |t.log| + Due(t) - 1 ==> script(j).requests == []
  }

  lemma {:induction false} WithRequestsLength(q: Queue, now: int, rs: seq<FutureRequest>)
    ensures |WithRequests(q, now, rs)| == |q| + |rs|
    decreases |rs|
  {
    if rs != [] {
      WithRequestsLength(q, now, rs[..|rs| - 1]);
    }
  }

  lemma StallsOn(t: Timeline, script: Script)
    requires KeyedByTime(t.queue) && LeavesDue(t) && !LoneTimer(t.queue)
    ensures Stalls(Deliver(t, script), script) <==> Stalls(t, script)
  {
    var t1, n := Deliver(t, script), |t.log|;
    DeliverLowersDue(t, script);
    WithRequestsLength(t.queue[1..], t.now, script(n).requests);
    if script(n).requests == [] {
      assert t1.queue == t.queue[1..];
      assert Stalls(t1, script) ==> forall j :: n <= j < n + Due(t) - 1 ==> j == n || script(j).requests == [];
    }
  }

  lemma PutBackHead(t: Timeline)
    requires KeyedByTime(t.queue) && t.queue != []
    ensures LeavesDue(PutBack(t)) <==> LeavesDue(t)
  {
    InsertedAt(t.queue[1..], t.queue[0], 0);
    PositionSpec(t.queue[1..], t.queue[0].key);
  }

  /** The idle loop leaves an entry that is due exactly when the machine stalls. */
  lemma {:induction false} DrainLeavesDue(t: Timeline, script: Script)
    requires KeyedByTime(t.queue)
    ensures LeavesDue(Drain(t, true, script)) <==> Stalls(t, script)
    decreases Due(t)
  {
    if t.queue != [] {
      if LeavesDue(t) && !LoneTimer(t.queue) {
        DeliverLowersDue(t, script);
        WithRequestsItems(t.queue[1..], t.now, script(|t.log|).requests);
        DrainLeavesDue(Deliver(t, script), script);
        StallsOn(t, script);
      } else {
        PutBackHead(t);
      }
    }
  }

  lemma StallStep(t: Timeline, script: Script)
    requires KeyedByTime(t.queue) && Stalls(t, script) && |t.queue| > 1
    ensures LeavesDue(t) && !LoneTimer(t.queue) && Due(Deliver(t, script)) < Due(t)
    ensures Deliver(t, script) == Timeline(t.now, t.queue[1..], t.log + [Delivery(t.queue[0].item, t.now)])
    ensures Stalls(Deliver(t, script), script)
  {
    PositionSpec(t.queue, t.now);
    DeliverLowersDue(t, script);
    StallsOn(t, script);
  }

  /** What is left is the timer's entry alone, and everything else has been delivered. */
  lemma {:induction false} StallLeavesTimer(t: Timeline, script: Script)
    requires KeyedByTime(t.queue) && Stalls(t, script)
    ensures var last := |t.queue| - 1;
      Drain(t, true, script) == Timeline(t.now, [t.queue[last]], t.log + Deliveries(t.queue[..last], t.now))
    decreases Due(t)
  {
    if |t.queue| == 1 {
      assert PutBack(t) == t && t.queue == [t.queue[0]];
    } else {
      var t1, last := Deliver(t, script), |t.queue| - 1;
      StallStep(t, script);
      StallLeavesTimer(t1, script);
      assert t1.queue[..last - 1] == t.queue[1..last];
      DeliveriesHead(t.queue, last, t.now);
    }
  }

  /** The clock at the first entry, as the idle machine finds it. */
  function Advanced(t: Timeline): Timeline {
    if t.queue != [] && t.queue[0].key > t.now then t.(now := t.queue[0].key) else t
  }

  /** Idling is the loop in idle mode, from the time of the first entry on. */
  lemma IdleIsDrain(t: Timeline, script: Script)
    requires KeyedByTime(t.queue)
    ensures Step(t, Idle, script) == Drain(Advanced(t), true, script)
  {
    var t1 := Advanced(t);
    if t.queue != [] && !LoneTimer(t.queue) {
      DrainStep(t1, true, script);
    }
  }

  /** After which events something due is still pending: after idling, exactly when the machine stalled there; never
      after a tick; and after a request for later, if it was before. */
  lemma DueAfter(t: Timeline, e: Event, script: Script)
    requires Sound(t, 0) && Allowed(e)
    ensures LeavesDue(Step(t, e, script)) <==>
      match e
      case Idle => Stalls(Advanced(t), script)
      case Tick(_) => false
      case Schedule(_) => LeavesDue(t)
  {
    match e
    case Idle =>
      IdleIsDrain(t, script);
      DrainLeavesDue(Advanced(t), script);
    case Tick(ticks) =>
      var t1 := t.(now := t.now + ticks);
      DrainLeavesFuture(t1, script);
      DrainKeepsSound(t1, false, script, SYSTEM_TICK);
    case Schedule(r) =>
      var x := Entry(t.now, r);
      InsertedAt(t.queue, x, 0);
      PositionSpec(t.queue, x.key);
  }

  /** An interrupt comes a whole system tick late exactly when it was due before that tick. */
  lemma WholeTickLate(t: Timeline, script: Script)
    requires Sound(t, 0)
    ensures var log := Step(t, Tick(SYSTEM_TICK), script).log;
      (exists i :: |t.log| <= i < |log| && log[i].at == log[i].entry.when + SYSTEM_TICK) <==> LeavesDue(t)
  {
    var t1, log := t.(now := t.now + SYSTEM_TICK), Step(t, Tick(SYSTEM_TICK), script).log;
    DrainDeliversDue(t1, script);
    PositionSpec(t.queue, t1.now);
    if LeavesDue(t) {
      assert log[|t.log|] == Delivery(t.queue[0].item, t1.now);
    }
  }

  lemma SoleEntry(t: Timeline, e: Keyed<PendingInterrupt>, script: Script)
    requires Sound(t, SYSTEM_TICK) && t.queue == [e] && e.key <= t.now
    ensures Drain(t, false, script).log == t.log + [Delivery(e.item, t.now)]
  {
    PositionUnique(t.queue, t.now, 1);
    assert t.queue[..1] == t.queue;
    DrainDeliversDue(t, script);
  }

  /** When the machine stalls, the timer's interrupt comes exactly a system tick late at the next one. */
  lemma StalledTimerIsLate(t: Timeline, script: Script)
    requires Sound(t, 0) && Stalls(Advanced(t), script)
    ensures var t', timer := Step(t, Idle, script), t.queue[|t.queue| - 1].item;
      && Sound(t', 0)
      && Step(t', Tick(SYSTEM_TICK), script).log == t'.log + [Delivery(timer, timer.when + SYSTEM_TICK)]
  {
    var t', last := Step(t, Idle, script), t.queue[|t.queue| - 1];
    AfterStall(t, script);
    LateEntry(t', last, script);
  }

  /** After idling the timer's entry is alone, and due at that moment. */
  lemma AfterStall(t: Timeline, script: Script)
    requires Sound(t, 0) && Stalls(Advanced(t), script)
    ensures var t', last := Step(t, Idle, script), t.queue[|t.queue| - 1];
      Sound(t', 0) && t'.queue == [last] && last.key == t'.now && last.item.when == t'.now
  {
    var t1 := Advanced(t);
    StepKeepsSound(t, Idle, script);
    IdleIsDrain(t, script);
    StallLeavesTimer(t1, script);
    PositionSpec(t1.queue, t1.now);
  }

  lemma LateEntry(t: Timeline, e: Keyed<PendingInterrupt>, script: Script)
    requires Sound(t, 0) && t.queue == [e] && e.key == e.item.when == t.now
    ensures Step(t, Tick(SYSTEM_TICK), script).log == t.log + [Delivery(e.item, e.item.when + SYSTEM_TICK)]
  {
    SoleEntry(t.(now := t.now + SYSTEM_TICK), e, script);
  }

  /** It does happen: a disk interrupt and the timer's fall due together. */
  lemma LateTimer() returns (t: Timeline, script: Script)
    ensures Sound(t, 0) && t.log == [] && Stalls(Advanced(t), script)
  {
    var disk, timer := PendingInterrupt(0, 0, 100, DiskInt), PendingInterrupt(0, 0, 100, TimerInt);
    t := Timeline(0, [Keyed(disk, 100), Keyed(timer, 100)], []);
    script := n => Reaction([], false);
    PositionUnique(t.queue, 100, 2);
  }

  /** One turn of the loop. */
  lemma DrainStep(t: Timeline, idle: bool, script: Script)
    requires KeyedByTime(t.queue)
    ensures var (t1, fired) := Check(t, false, idle, script);
      && KeyedByTime(t1.queue)
      && Drain(t, idle, script) == (if fired then Drain(t1, idle, script) else t1)
      && (fired ==> Due(t1) < Due(t))
  {
    if t.queue != [] && t.queue[0].key <= t.now {
      DeliverLowersDue(t, script);
      WithRequestsItems(t.queue[1..], t.now, script(|t.log|).requests);
    }
    if t.queue != [] {
      InsertedKeys(t.queue[1..], t.queue[0]);
    }
  }

  // ----- the simulator

  /** One of the handlers called from the a-th to before the b-th delivery asks to yield. */
  ghost predicate Asked(script: Script, a: nat, b: nat) {
    exists i: nat :: a <= i < b && script(i).wantsYield
  }

  lemma AskedChain(script: Script, a: nat, b: nat, c: nat)
    requires a <= b <= c
    ensures Asked(script, a, c) <==> Asked(script, a, b) || Asked(script, b, c)
  {
  }

  class Interrupt {
    var level: IntStatus
    const pending: List<PendingInterrupt>
    var inHandler: bool
    var yieldOnReturn: bool
    var status: MachineStatus
    var totalTicks: int
    var idleTicks: int
    var systemTicks: int
    var userTicks: int
    var delivered: nat
    const script: Script
    ghost var log: seq<Delivery>

    ghost function Time(): Timeline
      reads this, pending
    {
      Timeline(totalTicks, pending.Contents, log)
    }

    /** The list is linked properly, and ticks and deliveries add up. */
    ghost predicate Counted()
      reads this, pending, pending.Repr
    {
      this !in pending.Repr && pending.Valid() && totalTicks == idleTicks + systemTicks + userTicks && delivered == |log|
    }

    /** Between operations nothing pending is overdue. */
    ghost predicate Valid()
      reads this, pending, pending.Repr
    {
      Counted() && Sound(Time(), 0) && !inHandler
    }

    constructor (script: Script)
      ensures Valid() && Time() == Timeline(0, [], []) && level == IntOff && status == SystemMode
      ensures this.script == script && fresh(pending.Repr)
    {
      this.script := script;
      pending := new List();
      level, inHandler, yieldOnReturn, status := IntOff, false, false, SystemMode;
      totalTicks, idleTicks, systemTicks, userTicks, delivered, log := 0, 0, 0, 0, 0, [];
    }

    /** Links an entry into the list, and nothing else. */
    method Insert(entry: PendingInterrupt)
      requires Counted()
      modifies pending.Repr
      ensures Counted() && fresh(pending.Repr - old(pending.Repr))
      ensures pending.Contents == Inserted(old(pending.Contents), Keyed(entry, entry.when))
    {
      pending.SortedInsert(entry, entry.when);
    }

    method ScheduleAt(r: FutureRequest)
      requires Valid()
      modifies pending.Repr
      ensures Valid() && fresh(pending.Repr - old(pending.Repr)) && Time() == Step(old(Time()), Schedule(r), script)
    {
      ghost var goal := Step(Time(), Schedule(r), script);
      StepKeepsSound(Time(), Schedule(r), script);
      Insert(PendingInterrupt(r.handler, r.arg, totalTicks + r.fromNow, r.kind));
      assert Time() == goal;
    }

    /** Calls the handler of an interrupt, which may only schedule interrupts and ask to yield. */
    method CallHandler()
      requires this !in pending.Repr && pending.Valid()
      modifies this`yieldOnReturn, pending.Repr
      ensures pending.Valid() && fresh(pending.Repr - old(pending.Repr))
      ensures pending.Contents == WithRequests(old(pending.Contents), totalTicks, script(delivered).requests)
      ensures yieldOnReturn <==> old(yieldOnReturn) || script(delivered).wantsYield
    {
      ghost var q := pending.Contents;
      var requests, now := script(delivered).requests, totalTicks;
      for i := 0 to |requests|
        modifies pending.Repr
        invariant pending.Valid() && fresh(pending.Repr - old(pending.Repr))
        invariant pending.Contents == WithRequests(q, now, requests[..i])
      {
        WithRequestsStep(q, now, requests, i);
        var r := requests[i];
        pending.SortedInsert(PendingInterrupt(r.handler, r.arg, now + r.fromNow, r.kind), now + r.fromNow);
      }
      assert requests[..|requests|] == requests;
      if script(delivered).wantsYield {
        yieldOnReturn := true;
      }
    }

    method EnterHandler() returns (before: MachineStatus)
      modifies this`inHandler, this`status
      ensures before == old(status)
    {
      before := status;
      inHandler := true;
      status := SystemMode;
    }

    method LeaveHandler(before: MachineStatus, ghost delivery: Delivery)
      modifies this`inHandler, this`status, this`delivered, this`log
      ensures !inHandler && status == before && delivered == old(delivered) + 1 && log == old(log) + [delivery]
    {
      status := before;
      inHandler := false;
      delivered := delivered + 1;
      log := log + [delivery];
    }

    /** Runs the handler of an entry just taken off the queue, in system mode. */
    method Fire(toOccur: PendingInterrupt, ghost t: Timeline)
      requires this !in pending.Repr && pending.Valid() && t.queue != [] && t.queue[0].item == toOccur
      requires Time() == t.(queue := t.queue[1..]) && delivered == |log|
      modifies this`inHandler, this`status, this`yieldOnReturn, this`delivered, this`log, pending.Repr
      ensures pending.Valid() && fresh(pending.Repr - old(pending.Repr))
      ensures Time() == Deliver(t, script) && delivered == |log| && !inHandler && status == old(status)
      ensures yieldOnReturn <==> old(yieldOnReturn) || Asked(script, |old(log)|, |log|)
    {
      var before := EnterHandler();
      CallHandler();
      LeaveHandler(before, Delivery(toOccur, totalTicks));
      assert Asked(script, |t.log|, |t.log| + 1) <==> script(|t.log|).wantsYield;
    }

    /** Puts an entry back that is not to be delivered now. */
    method PutEntryBack(toOccur: PendingInterrupt, when: int, ghost t: Timeline)
      requires Counted() && !inHandler && t.queue != [] && t.queue[0] == Keyed(toOccur, when)
      requires Time() == t.(queue := t.queue[1..])
      modifies pending.Repr
      ensures Counted() && fresh(pending.Repr - old(pending.Repr)) && Time() == PutBack(t)
    {
      pending.SortedInsert(toOccur, when);
    }

    method AdvanceTo(when: int)
      modifies this`totalTicks, this`idleTicks
      ensures totalTicks == when && totalTicks - idleTicks == old(totalTicks - idleTicks)
    {
      idleTicks := idleTicks + (when - totalTicks);
      totalTicks := when;
    }

    /** Delivers an entry that is due, unless the machine is idle and nothing but the timer is left. */
    method FireUnlessQuitting(toOccur: PendingInterrupt, when: int, ghost t: Timeline) returns (fired: bool)
      requires Counted() && !inHandler && t.queue != [] && t.queue[0] == Keyed(toOccur, when)
      requires Time() == t.(queue := t.queue[1..])
      modifies this`inHandler, this`status, this`yieldOnReturn, this`delivered, this`log, pending.Repr
      ensures fired <==> !(old(status) == IdleMode && LoneTimer(t.queue))
      ensures Time() == if fired then Deliver(t, script) else PutBack(t)
      ensures Counted() && fresh(pending.Repr - old(pending.Repr)) && !inHandler && status == old(status)
      ensures |old(log)| <= |log| && (yieldOnReturn <==> old(yieldOnReturn) || Asked(script, |old(log)|, |log|))
    {
      var empty := pending.IsEmpty();
      if status == IdleMode && toOccur.kind == TimerInt && empty {
        PutEntryBack(toOccur, when, t);
        return false;
      }
      Fire(toOccur, t);
      return true;
    }

    method CheckIfDue(advanceClock: bool) returns (fired: bool)
      requires Counted() && level == IntOff && !inHandler
      modifies this`inHandler, this`status, this`yieldOnReturn, this`totalTicks, this`idleTicks, this`delivered,
               this`log, pending.Repr
      ensures (Time(), fired) == Check(old(Time()), advanceClock, old(status) == IdleMode, script)
      ensures Counted() && fresh(pending.Repr - old(pending.Repr)) && !inHandler && status == old(status)
      ensures |old(log)| <= |log| && (yieldOnReturn <==> old(yieldOnReturn) || Asked(script, |old(log)|, |log|))
    {
      ghost var t := Time();
      var head := pending.SortedRemove();
      if head.None? {
        return false;
      }
      var toOccur, when := head.value.item, head.value.key;
      if advanceClock && when > totalTicks {
        AdvanceTo(when);
      } else if when > totalTicks {
        PutEntryBack(toOccur, when, t);
        return false;
      }
      fired := FireUnlessQuitting(toOccur, when, t.(now := totalTicks));
    }

    /** The loop `while (CheckIfDue(FALSE));`. */
    method CheckAll()
      requires Counted() && KeyedByTime(pending.Contents) && level == IntOff && !inHandler
      modifies this`inHandler, this`status, this`yieldOnReturn, this`totalTicks, this`idleTicks, this`delivered,
               this`log, pending.Repr
      ensures Time() == Drain(old(Time()), old(status) == IdleMode, script)
      ensures Counted() && fresh(pending.Repr - old(pending.Repr)) && !inHandler && status == old(status)
      ensures |old(log)| <= |log| && (yieldOnReturn <==> old(yieldOnReturn) || Asked(script, |old(log)|, |log|))
    {
      ghost var idle, goal, start, asked := status == IdleMode, Drain(Time(), status == IdleMode, script), |log|, yieldOnReturn;
      var more := true;
      while more
        invariant Counted() && fresh(pending.Repr - old(pending.Repr)) && !inHandler && status == old(status)
        invariant KeyedByTime(pending.Contents)
        invariant goal == if more then Drain(Time(), idle, script) else Time()
        invariant start <= |log| && (yieldOnReturn <==> asked || Asked(script, start, |log|))
        decreases more, Due(Time())
      {
        DrainStep(Time(), idle, script);
        ghost var middle := |log|;
        more := CheckIfDue(false);
        AskedChain(script, start, middle, |log|);
      }
    }

    /** Counts a tick and fires whatever is due after it. */
    method TickAndCheck() returns (yielding: bool)
      requires Counted() && KeyedByTime(pending.Contents) && !inHandler && status != IdleMode
      modifies this, pending.Repr
      ensures Counted() && fresh(pending.Repr - old(pending.Repr)) && !inHandler
      ensures level == IntOn && status == old(status) && !yieldOnReturn
      ensures Time() == Drain(old(Time()).(now := old(totalTicks) + TickOf(status)), false, script)
      ensures systemTicks == old(systemTicks) + (if status == SystemMode then 10 else 0)
      ensures userTicks == old(userTicks) + (if status == SystemMode then 0 else 1)
      ensures yielding <==> old(yieldOnReturn) || Asked(script, |old(log)|, |log|)
    {
      CountTick();
      CheckAll();
      yielding := EndTick();
    }

    /** Advances time by one tick and fires whatever is due; reports a requested context switch. */
    method OneTick() returns (yielding: bool)
      requires Valid() && status != IdleMode
      modifies this, pending.Repr
      ensures Valid() && fresh(pending.Repr - old(pending.Repr)) && level == IntOn && status == old(status) && !yieldOnReturn
      ensures Time() == Step(old(Time()), Tick(TickOf(status)), script)
      ensures systemTicks == old(systemTicks) + (if status == SystemMode then 10 else 0)
      ensures userTicks == old(userTicks) + (if status == SystemMode then 0 else 1)
      ensures yielding <==> old(yieldOnReturn) || Asked(script, |old(log)|, |log|)
    {
      ghost var goal := Step(Time(), Tick(TickOf(status)), script);
      StepKeepsSound(Time(), Tick(TickOf(status)), script);
      yielding := TickAndCheck();
      assert Time() == goal;
    }

    method CountTick()
      modifies this`totalTicks, this`systemTicks, this`userTicks, this`level
      ensures totalTicks == old(totalTicks) + (if status == SystemMode then 10 else 1) && level == IntOff
      ensures systemTicks == old(systemTicks) + if status == SystemMode then 10 else 0
      ensures userTicks == old(userTicks) + if status == SystemMode then 0 else 1
    {
      if status == SystemMode {
        totalTicks := totalTicks + SYSTEM_TICK;
        systemTicks := systemTicks + SYSTEM_TICK;
      } else {
        totalTicks := totalTicks + USER_TICK;
        userTicks := userTicks + USER_TICK;
      }
      level := IntOff;
    }

    method EndTick() returns (yielding: bool)
      modifies this`level, this`yieldOnReturn
      ensures level == IntOn && yielding == old(yieldOnReturn) && !yieldOnReturn
    {
      level := IntOn;
      yielding := yieldOnReturn;
      yieldOnReturn := false;
    }

    method SetLevel(now: IntStatus) returns (before: IntStatus, yielding: bool)
      requires Valid() && (now == IntOn ==> status != IdleMode)
      modifies this, pending.Repr
      ensures Valid() && fresh(pending.Repr - old(pending.Repr)) && before == old(level) && level == now && status == old(status)
      ensures Time() == if now == IntOn && before == IntOff
        then Step(old(Time()), Tick(TickOf(status)), script) else old(Time())
      ensures if now == IntOn && before == IntOff
        then !yieldOnReturn && (yielding <==> old(yieldOnReturn) || Asked(script, |old(log)|, |log|))
        else !yielding && yieldOnReturn == old(yieldOnReturn)
    {
      before, yielding := level, false;
      level := now;
      if now == IntOn && before == IntOff {
        yielding := OneTick();
      }
    }

    method CheckFirst(ghost t1: Timeline, ghost due: bool) returns (fired: bool)
      requires Counted() && level == IntOff && !inHandler
      requires (t1, due) == Check(Time(), true, true, script)
      modifies this, pending.Repr
      ensures Counted() && fresh(pending.Repr - old(pending.Repr)) && !inHandler && level == IntOff
      ensures fired == due && status == IdleMode && Time() == t1
    {
      status := IdleMode;
      fired := CheckIfDue(true);
    }

    /** The rest of idling once an interrupt has been delivered. */
    method CheckRest()
      requires Counted() && KeyedByTime(pending.Contents) && level == IntOff && status == IdleMode && !inHandler
      modifies this, pending.Repr
      ensures Counted() && fresh(pending.Repr - old(pending.Repr)) && !inHandler && level == IntOff
      ensures status == SystemMode && !yieldOnReturn && Time() == Drain(old(Time()), true, script)
    {
      CheckAll();
      EndIdle();
    }

    /** Moves on to the first entry, and fires it and whatever else is due then. */
    method CheckWhileIdle(ghost t1: Timeline, ghost due: bool) returns (fired: bool)
      requires Counted() && level == IntOff && !inHandler
      requires (t1, due) == Check(Time(), true, true, script) && KeyedByTime(t1.queue)
      modifies this, pending.Repr
      ensures Counted() && fresh(pending.Repr - old(pending.Repr)) && !inHandler && level == IntOff
      ensures fired == due && (fired ==> status == SystemMode && !yieldOnReturn)
      ensures Time() == if fired then Drain(t1, true, script) else t1
    {
      fired := CheckFirst(t1, due);
      if fired {
        CheckRest();
      }
    }

    /** Called when no thread is ready: moves on to the next interrupt, or stops the machine
        when there is none, or none but the timer's. */
    method GoIdle() returns (halted: bool)
      requires Valid() && level == IntOff
      modifies this, pending.Repr
      ensures Valid() && fresh(pending.Repr - old(pending.Repr)) && level == IntOff
      ensures Time() == Step(old(Time()), Idle, script)
      ensures halted <==> Halts(old(Time()))
      ensures !halted ==> status == SystemMode && |log| > |old(log)| && !yieldOnReturn
      ensures LeavesDue(Time()) <==> Stalls(Advanced(old(Time())), script)
    {
      ghost var t, goal := Time(), Step(Time(), Idle, script);
      IdleFacts(t, script);
      ghost var (t1, due) := Check(t, true, true, script);
      var fired := CheckWhileIdle(t1, due);
      halted := !fired;
      assert Time() == goal;
    }

    method EndIdle()
      modifies this`yieldOnReturn, this`status
      ensures !yieldOnReturn && status == SystemMode
    {
      yieldOnReturn := false;
      status := SystemMode;
    }
  }

  lemma IdleFacts(t: Timeline, script: Script)
    requires Sound(t, 0)
    ensures var (t1, fired) := Check(t, true, true, script);
      && Sound(t1, 0) && Step(t, Idle, script) == (if fired then Drain(t1, true, script) else t1)
      && (fired ==> |Drain(t1, true, script).log| > |t.log|)
    ensures Sound(Step(t, Idle, script), 0)
    ensures LeavesDue(Step(t, Idle, script)) <==> Stalls(Advanced(t), script)
  {
    StepKeepsSound(t, Idle, script);
    CheckKeepsSound(t, true, true, script, 0);
    DueAfter(t, Idle, script);
    var (t1, fired) := Check(t, true, true, script);
    if fired {
      DrainGrows(t1, true, script);
    }
  }

  lemma {:induction false} DrainGrows(t: Timeline, idle: bool, script: Script)
    requires KeyedByTime(t.queue)
    ensures |Drain(t, idle, script).log| >= |t.log|
    decreases Due(t)
  {
    var (t1, fired) := Check(t, false, idle, script);
    if fired {
      DeliverLowersDue(t, script);
      WithRequestsItems(t.queue[1..], t.now, script(|t.log|).requests);
      DrainGrows(t1, idle, script);
    }
  }
}
