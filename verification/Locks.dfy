/** The two locks of a node, the link lock and the queues lock, and every task that takes them. */
module Locks {
  import opened Prelude

  type Task = nat

  /** Where a task is in its lock scopes. */
  datatype Pc =
    | Away                 // holds nothing: waiting for input, a timer or a wakeup token
    // message handlers, the client listener, the info timer and the ready check
    | WantsLink | HasLink | WantsQueuesToo | HasBoth
    // the regulator: it gives the queues back before it asks for the link
    | WantsQueues | HasQueues | WantsLinkToSend | Sending

  datatype State = State(at: map<Task, Pc>, link: Option<Task>, queues: Option<Task>)

  predicate HoldsLink(pc: Pc) {
    pc.HasLink? || pc.WantsQueuesToo? || pc.HasBoth? || pc.Sending?
  }

  predicate HoldsQueues(pc: Pc) {
    pc.HasBoth? || pc.HasQueues?
  }

  predicate AsksLink(pc: Pc) {
    pc.WantsLink? || pc.WantsLinkToSend?
  }

  predicate AsksQueues(pc: Pc) {
    pc.WantsQueuesToo? || pc.WantsQueues?
  }

  /** The control flow of a task, lock operations included. */
  predicate Flow(pc: Pc, pc': Pc) {
    match pc
    case Away => pc'.WantsLink? || pc'.WantsQueues?
    case WantsLink => pc'.HasLink?
    case HasLink => pc'.WantsQueuesToo? || pc'.Away?
    case WantsQueuesToo => pc'.HasBoth?
    case HasBoth => pc'.HasLink?
    case WantsQueues => pc'.HasQueues?
    case HasQueues => pc'.WantsLinkToSend? || pc'.Away?
    case WantsLinkToSend => pc'.Sending?
    case Sending => pc'.Away?
  }

  /** The lock's owner after a task moves: taken, given back or as before. */
  function Owner(owner: Option<Task>, t: Task, before: bool, after: bool): Option<Task> {
    if !before && after then Some(t) else if before && !after then None else owner
  }

  /** Task t moves to pc'. A lock is taken only when it is free. */
  predicate Step(s: State, t: Task, pc': Pc, s': State) {
    && t in s.at && Flow(s.at[t], pc')
    && (AsksLink(s.at[t]) ==> s.link.None?)
    && (AsksQueues(s.at[t]) ==> s.queues.None?)
    && s' == After(s, t, pc')
  }

  function After(s: State, t: Task, pc': Pc): State
    requires t in s.at
  {
    State(
      s.at[t := pc'],
      Owner(s.link, t, HoldsLink(s.at[t]), HoldsLink(pc')),
      Owner(s.queues, t, HoldsQueues(s.at[t]), HoldsQueues(pc')))
  }

  ghost predicate Start(s: State) {
    s.link.None? && s.queues.None? && forall t :: t in s.at ==> s.at[t].Away?
  }

  ghost predicate SomeStep(s: State, s': State) {
    exists t, pc :: Step(s, t, pc, s')
  }

  /** States that follow one another by steps of any tasks in any order. */
  ghost predicate IsRun(run: seq<State>) {
    && run != [] && Start(run[0])
    && forall i :: 0 <= i < |run| - 1 ==> SomeStep(run[i], run[i + 1])
  }

  /** A lock's owner is exactly the one task whose place holds it. */
  ghost predicate Inv(s: State) {
    && (forall t :: t in s.at ==> (HoldsLink(s.at[t]) <==> s.link == Some(t)))
    && (forall t :: t in s.at ==> (HoldsQueues(s.at[t]) <==> s.queues == Some(t)))
    && (s.link.Some? ==> s.link.value in s.at)
    && (s.queues.Some? ==> s.queues.value in s.at)
  }

  lemma StepKeepsInv(s: State, t: Task, pc': Pc, s': State)
    requires Inv(s) && Step(s, t, pc', s')
    ensures Inv(s')
  {
  }

  lemma {:induction false} RunKeepsInv(run: seq<State>, n: nat)
    requires IsRun(run) && n < |run|
    ensures Inv(run[n])
  {
    if n > 0 {
      RunKeepsInv(run, n - 1);
      assert SomeStep(run[n - 1], run[n]);
      var t, pc :| Step(run[n - 1], t, pc, run[n]);
      StepKeepsInv(run[n - 1], t, pc, run[n]);
    }
  }

  /** The task that t waits for, if its next lock is taken. */
  function WaitsFor(s: State, t: Task): Option<Task>
    requires t in s.at
  {
    if AsksLink(s.at[t]) then s.link
    else if AsksQueues(s.at[t]) then s.queues
    else None
  }

  ghost predicate CanMove(s: State, t: Task) {
    exists pc, s' :: Step(s, t, pc, s')
  }

  lemma MovesUnlessWaiting(s: State, t: Task)
    requires t in s.at
    ensures CanMove(s, t) <==> WaitsFor(s, t).None?
  {
    if WaitsFor(s, t).None? {
      var pc := match s.at[t]
        case Away => WantsLink
        case WantsLink => HasLink
        case HasLink => Away
        case WantsQueuesToo => HasBoth
        case HasBoth => HasLink
        case WantsQueues => HasQueues
        case HasQueues => Away
        case WantsLinkToSend => Sending
        case Sending => Away;
      assert Step(s, t, pc, After(s, t, pc));
    }
  }

  /** Each lock has one holder, and whoever holds the queues never waits for anything. */
  lemma HoldersAreExclusive(run: seq<State>, n: nat, t: Task, u: Task)
    requires IsRun(run) && n < |run| && t in run[n].at && u in run[n].at
    ensures HoldsLink(run[n].at[t]) && HoldsLink(run[n].at[u]) ==> t == u
    ensures HoldsQueues(run[n].at[t]) && HoldsQueues(run[n].at[u]) ==> t == u
    ensures HoldsQueues(run[n].at[t]) ==> WaitsFor(run[n], t).None?
  {
    RunKeepsInv(run, n);
  }

  /**
    No deadlock: in every reachable state, whoever waits for a lock waits, directly or through
    one other task, for a task that can move. So there is no cyclic wait.
   */
  lemma EveryWaitEnds(run: seq<State>, n: nat, t: Task)
    requires IsRun(run) && n < |run| && t in run[n].at
    ensures var s := run[n];
      || CanMove(s, t)
      || (WaitsFor(s, t).Some? && WaitsFor(s, t).value in s.at && CanMove(s, WaitsFor(s, t).value))
      || (WaitsFor(s, t).Some? && WaitsFor(s, t).value in s.at
          && var u := WaitsFor(s, t).value;
             WaitsFor(s, u).Some? && WaitsFor(s, u).value in s.at && CanMove(s, WaitsFor(s, u).value))
  {
    var s := run[n];
    RunKeepsInv(run, n);
    MovesUnlessWaiting(s, t);
    if WaitsFor(s, t).Some? {
      var u := WaitsFor(s, t).value;
      MovesUnlessWaiting(s, u);
      if WaitsFor(s, u).Some? {
        MovesUnlessWaiting(s, WaitsFor(s, u).value);
      }
    }
  }

  // ---- the tasks do meet ----

  /** A handler, task 0, and the regulator, task 1. */
  function Meeting(handler: Pc, regulator: Pc, link: Option<Task>, queues: Option<Task>): State {
    State(map[0 := handler, 1 := regulator], link, queues)
  }

  lemma HandlerMoves(s: State, pc: Pc, r: Pc, pc': Pc, s': State)
    requires s == Meeting(pc, r, s.link, s.queues) && Flow(pc, pc')
    requires (AsksLink(pc) ==> s.link.None?) && (AsksQueues(pc) ==> s.queues.None?)
    requires s' == Meeting(pc', r, Owner(s.link, 0, HoldsLink(pc), HoldsLink(pc')),
      Owner(s.queues, 0, HoldsQueues(pc), HoldsQueues(pc')))
    ensures SomeStep(s, s')
  {
    assert s.at[0 := pc'] == s'.at;
    assert After(s, 0, pc') == s';
    assert Step(s, 0, pc', s');
  }

  lemma RegulatorMoves(s: State, h: Pc, pc: Pc, pc': Pc, s': State)
    requires s == Meeting(h, pc, s.link, s.queues) && Flow(pc, pc')
    requires (AsksLink(pc) ==> s.link.None?) && (AsksQueues(pc) ==> s.queues.None?)
    requires s' == Meeting(h, pc', Owner(s.link, 1, HoldsLink(pc), HoldsLink(pc')),
      Owner(s.queues, 1, HoldsQueues(pc), HoldsQueues(pc')))
    ensures SomeStep(s, s')
  {
    assert s.at[1 := pc'] == s'.at;
    assert After(s, 1, pc') == s';
    assert Step(s, 1, pc', s');
  }

  function Contention(i: nat): State
    requires i < 8
  {
    match i
    case 0 => Meeting(Away, Away, None, None)
    case 1 => Meeting(Away, WantsQueues, None, None)
    case 2 => Meeting(Away, HasQueues, None, Some(1))
    case 3 => Meeting(Away, WantsLinkToSend, None, None)
    case 4 => Meeting(WantsLink, WantsLinkToSend, None, None)
    case 5 => Meeting(HasLink, WantsLinkToSend, Some(0), None)
    case 6 => Meeting(WantsQueuesToo, WantsLinkToSend, Some(0), None)
    case 7 => Meeting(HasBoth, WantsLinkToSend, Some(0), Some(0))
  }

  lemma ContentionStep(i: nat)
    requires i < 7
    ensures SomeStep(Contention(i), Contention(i + 1))
  {
    var s, s' := Contention(i), Contention(i + 1);
    match i
    case 0 => RegulatorMoves(s, Away, Away, WantsQueues, s');
    case 1 => RegulatorMoves(s, Away, WantsQueues, HasQueues, s');
    case 2 => RegulatorMoves(s, Away, HasQueues, WantsLinkToSend, s');
    case 3 => HandlerMoves(s, Away, WantsLinkToSend, WantsLink, s');
    case 4 => HandlerMoves(s, WantsLink, WantsLinkToSend, HasLink, s');
    case 5 => HandlerMoves(s, HasLink, WantsLinkToSend, WantsQueuesToo, s');
    case 6 => HandlerMoves(s, WantsQueuesToo, WantsLinkToSend, HasBoth, s');
  }

  /** The contended case is reached: a handler holds both locks while the regulator, frame in hand, waits for the link. */
  lemma BothLocksContended() returns (run: seq<State>)
    ensures IsRun(run)
    ensures var s := run[|run| - 1]; s.at == map[0 := HasBoth, 1 := WantsLinkToSend] && WaitsFor(s, 1) == Some(0)
  {
    run := seq(8, i requires 0 <= i < 8 => Contention(i));
    forall i | 0 <= i < |run| - 1 ensures SomeStep(run[i], run[i + 1]) {
      ContentionStep(i);
    }
  }
}
