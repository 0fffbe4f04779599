/** The handshake of Join and Exit between a process and its parent (userprog/ptable.cc,
    userprog/pcb.cc), in every interleaving in which the parent's first Join, if there is one, starts
    before the child's check for it. */
module JoinExit {
  import opened Basics
  /** Where the parent is in its first Join. */
  datatype Parent = Away | Noted | Waiting | Awake | Holding(code: int) | Returned(result: int)

  /** Where the child is in Exit. */
  datatype Child = Running | CodeSet | Joined | Unjoined | Released | Leaving | Gone

  /** The child's control block, with both processes' places. Field joined remembers what the child's check found. */
  datatype State = State(parent: Parent, child: Child, joinStatus: int, exitcode: int, joinsem: nat, exitsem: nat, joined: bool)

  datatype Action = Note | Wait | Wake | GetExitCode | Finish | SetExitCode | Check | JoinRelease | ExitWait | Remove

  const NOBODY := -1

  ghost predicate Enabled(s: State, a: Action) {
    match a
    case Note => s.parent.Away? && (s.child.Running? || s.child.CodeSet?)
    case Wait => s.parent.Noted?
    case Wake => s.parent.Waiting? && s.joinsem > 0
    case GetExitCode => s.parent.Awake?
    case Finish => s.parent.Holding?
    case SetExitCode => s.child.Running?
    case Check => s.child.CodeSet?
    case JoinRelease => s.child.Joined?
    case ExitWait => s.child.Released? && s.exitsem > 0
    case Remove => s.child.Leaving? || s.child.Unjoined?
  }

  /** One step, of a child that exits with code ec and whose parent has the number parentID. */
  function Step(s: State, a: Action, parentID: nat, ec: int): State
    requires Enabled(s, a)
  {
    match a
    case Note => s.(parent := Noted, joinStatus := parentID)
    case Wait => s.(parent := Waiting)
    case Wake => s.(parent := Awake, joinsem := s.joinsem - 1)
    case GetExitCode => s.(parent := Holding(s.exitcode))
    case Finish =>
      if s.parent.code != 0 then s.(parent := Returned(-1))
      else s.(parent := Returned(0), exitsem := s.exitsem + 1)
    case SetExitCode => s.(child := CodeSet, exitcode := ec)
    case Check => s.(child := if s.joinStatus != NOBODY then Joined else Unjoined, joined := s.joinStatus != NOBODY)
    case JoinRelease => s.(child := Released, joinsem := s.joinsem + 1)
    case ExitWait => s.(child := Leaving, exitsem := s.exitsem - 1)
    case Remove => s.(child := Gone)
  }

  const FRESH := State(Away, Running, NOBODY, 0, 0, 0, false)

  ghost predicate Run(trace: seq<State>, actions: seq<Action>, parentID: nat, ec: int) {
    && |trace| == |actions| + 1 && trace[0] == FRESH
    && forall i :: 0 <= i < |actions| ==>
         Enabled(trace[i], actions[i]) && trace[i + 1] == Step(trace[i], actions[i], parentID, ec)
  }

  // ----- the invariant

  predicate HasReleased(s: State) {
    s.child.Released? || s.child.Leaving? || (s.child.Gone? && s.joined)
  }

  predicate IsAwake(s: State) {
    s.parent.Awake? || s.parent.Holding? || s.parent.Returned?
  }

  predicate Inv(s: State, ec: int) {
    && (s.parent.Away? <==> s.joinStatus == NOBODY)
    && (!s.child.Running? ==> s.exitcode == ec)
    && (s.joined <==> !s.parent.Away? && !s.child.Running? && !s.child.CodeSet?)
    && (s.child.Unjoined? ==> !s.joined)
    && (s.child.Joined? || s.child.Released? || s.child.Leaving? ==> s.joined)
    && s.joinsem + One(IsAwake(s)) == One(HasReleased(s))
    && s.exitsem + One(s.child.Leaving? || (s.child.Gone? && s.joined)) == One(s.parent.Returned? && ec == 0)
    && (s.parent.Holding? ==> s.parent.code == ec)
    && (s.parent.Returned? ==> s.parent.result == if ec == 0 then 0 else -1)
  }

  lemma StepKeepsInv(s: State, a: Action, parentID: nat, ec: int)
    requires Inv(s, ec) && Enabled(s, a)
    ensures Inv(Step(s, a, parentID, ec), ec)
  {
  }

  lemma {:induction false} RunsKeepInv(trace: seq<State>, actions: seq<Action>, parentID: nat, ec: int, n: nat)
    requires Run(trace, actions, parentID, ec) && n < |trace|
    ensures Inv(trace[n], ec)
  {
    if n > 0 {
      var i := n - 1;
      RunsKeepInv(trace, actions, parentID, ec, i);
      StepKeepsInv(trace[i], actions[i], parentID, ec);
      assert trace[i + 1] == Step(trace[i], actions[i], parentID, ec);
    }
  }

  // ----- what it means for the two processes

  /** In every interleaving: what the parent holds is the code the child has set; a child that found the
      parent waiting gives up its slot only after the parent has read a zero and returned it; with
      any other code it never does. */
  lemma Handshake(trace: seq<State>, actions: seq<Action>, parentID: nat, ec: int, n: nat)
    requires Run(trace, actions, parentID, ec) && n < |trace|
    ensures var s := trace[n];
      && (s.parent.Holding? ==> s.parent.code == ec == s.exitcode && !s.child.Running?)
      && (s.parent.Returned? ==> s.parent.result == (if ec == 0 then 0 else -1) && s.joined)
      && (s.joined && s.child.Gone? ==> s.parent == Returned(0) && ec == 0)
  {
    RunsKeepInv(trace, actions, parentID, ec, n);
  }

  ghost predicate Stuck(s: State) {
    forall a :: !Enabled(s, a)
  }

  /** When no step is left and the parent has joined, it has returned, with the code if that is zero and with -1
      otherwise, and the slot has been released if and only if the code is zero. A child nobody joined
      has released its slot. */
  lemma Outcome(trace: seq<State>, actions: seq<Action>, parentID: nat, ec: int)
    requires Run(trace, actions, parentID, ec) && Stuck(trace[|actions|])
    ensures var s := trace[|actions|];
      && (s.joined ==> s.parent == Returned(if ec == 0 then ec else -1) && (s.child.Gone? <==> ec == 0))
      && (!s.joined ==> s.parent.Away? && s.child.Gone?)
  {
    var s := trace[|actions|];
    RunsKeepInv(trace, actions, parentID, ec, |actions|);
    assert !Enabled(s, Wait) && !Enabled(s, Wake) && !Enabled(s, GetExitCode) && !Enabled(s, Finish);
    assert !Enabled(s, SetExitCode) && !Enabled(s, Check) && !Enabled(s, JoinRelease);
    assert !Enabled(s, ExitWait) && !Enabled(s, Remove);
  }

  function ParentLeft(p: Parent): nat {
    match p
    case Away => 5 case Noted => 4 case Waiting => 3 case Awake => 2 case Holding(_) => 1 case Returned(_) => 0
  }

  function ChildLeft(c: Child): nat {
    match c
    case Running => 5 case CodeSet => 4 case Joined => 3 case Released => 2 case Leaving => 1 case Unjoined => 1 case Gone => 0
  }

  /** Every run ends: each step leaves fewer to come, of ten. */
  lemma {:induction false} RunsEnd(trace: seq<State>, actions: seq<Action>, parentID: nat, ec: int, n: nat)
    requires Run(trace, actions, parentID, ec) && n < |trace|
    ensures n + ParentLeft(trace[n].parent) + ChildLeft(trace[n].child) <= 10
  {
    if n > 0 {
      var i := n - 1;
      RunsEnd(trace, actions, parentID, ec, i);
      assert Enabled(trace[i], actions[i]) && trace[i + 1] == Step(trace[i], actions[i], parentID, ec);
    }
  }

  lemma Extend(trace: seq<State>, actions: seq<Action>, parentID: nat, ec: int, a: Action)
    returns (trace': seq<State>, actions': seq<Action>)
    requires Run(trace, actions, parentID, ec) && Enabled(trace[|actions|], a)
    ensures Run(trace', actions', parentID, ec)
    ensures trace'[|actions'|] == Step(trace[|actions|], a, parentID, ec)
  {
    trace', actions' := trace + [Step(trace[|actions|], a, parentID, ec)], actions + [a];
  }

  /** The slot is kept in a run that does happen: the parent joins, the child exits with code 1, and at the end the child
      waits for good. */
  lemma KeptSlot() returns (trace: seq<State>, actions: seq<Action>)
    ensures Run(trace, actions, 0, 1) && Stuck(trace[|actions|])
    ensures trace[|actions|].joined && trace[|actions|].child == Released && trace[|actions|].parent == Returned(-1)
  {
    trace, actions := [FRESH], [];
    trace, actions := Extend(trace, actions, 0, 1, Note);
    trace, actions := Extend(trace, actions, 0, 1, Wait);
    trace, actions := Extend(trace, actions, 0, 1, SetExitCode);
    trace, actions := Extend(trace, actions, 0, 1, Check);
    trace, actions := Extend(trace, actions, 0, 1, JoinRelease);
    trace, actions := Extend(trace, actions, 0, 1, Wake);
    trace, actions := Extend(trace, actions, 0, 1, GetExitCode);
    trace, actions := Extend(trace, actions, 0, 1, Finish);
  }
}
