/** What the scheduler's invariant gives for whole runs, under every interleaving of its steps. */
module SchedulerRuns {
  import opened Prelude
  import opened Spacing
  import opened LinkTypes
  import opened OutgoingQueues
  import opened Scheduler
  import opened Policies

  function Pops(s: Sched): nat {
    |s.ledger.popped|
  }

  /** Some step of the regulator task itself can be taken, at once or after its sleep. */
  predicate RegulatorCanMove(s: Sched) {
    s.phase.Waiting? ==> s.tokens > 0
  }

  /**
    In every reachable state with a frame queued, the regulator can move; and no accepted frame is
    ever unaccounted for.
   */
  lemma NoFrameIsStuck(cfg: Config, steps: seq<Step>)
    ensures var s := Run(INIT, cfg, steps);
      && (s.ledger.queues.high != [] || s.ledger.queues.normal != [] ==> RegulatorCanMove(s))
      && Conserved(s.ledger) && InOrder(s.ledger) && PurgedForHigher(s.ledger)
  {
    ReachableInv(cfg, steps);
  }

  /** What the regulator does next when nothing else happens, letting its sleep run out. */
  function RegulatorTurn(s: Sched, cfg: Config): Sched {
    match s.phase
    case Checking => Next(s, cfg, Check)
    case Carrying(_) => Next(s, cfg, Transmit)
    case Sleeping(until) =>
      Next(Next(s, cfg, Elapse(if until <= s.now then 0 else until - s.now)), cfg, WakeUp)
    case Waiting => Next(s, cfg, ReceiveToken)
  }

  lemma TurnTowardsPop(s: Sched, cfg: Config)
    requires NoLostWakeup(s) && !IsEmpty(s.ledger.queues)
    ensures var s' := RegulatorTurn(s, cfg);
      match s.phase
      case Checking => Pops(s') == Pops(s) + 1
      case Carrying(_) => s'.phase.Sleeping? && s'.ledger == s.ledger
      case Sleeping(_) => s'.phase.Checking? && s'.ledger == s.ledger
      case Waiting => s'.phase.Checking? && s'.ledger == s.ledger
  {
  }

  /** From any reachable state with a frame queued, at most three turns of the regulator pop a frame. */
  lemma PopsWithinThreeTurns(cfg: Config, steps: seq<Step>)
    requires var q := Run(INIT, cfg, steps).ledger.queues; q.high != [] || q.normal != []
    ensures var s0 := Run(INIT, cfg, steps);
      var s1 := RegulatorTurn(s0, cfg);
      var s2 := RegulatorTurn(s1, cfg);
      var s3 := RegulatorTurn(s2, cfg);
      Pops(s1) > Pops(s0) || Pops(s2) > Pops(s0) || Pops(s3) > Pops(s0)
  {
    ReachableInv(cfg, steps);
    ThreeTurns(Run(INIT, cfg, steps), cfg);
  }

  lemma ThreeTurns(s0: Sched, cfg: Config)
    requires NoLostWakeup(s0) && !IsEmpty(s0.ledger.queues)
    ensures var s1 := RegulatorTurn(s0, cfg);
      var s2 := RegulatorTurn(s1, cfg);
      var s3 := RegulatorTurn(s2, cfg);
      Pops(s1) > Pops(s0) || Pops(s2) > Pops(s0) || Pops(s3) > Pops(s0)
  {
    TurnTowardsPop(s0, cfg);
    if !s0.phase.Checking? {
      var s1 := RegulatorTurn(s0, cfg);
      TurnTowardsPop(s1, cfg);
      if s1.phase.Sleeping? {
        TurnTowardsPop(RegulatorTurn(s1, cfg), cfg);
      }
    }
  }

  // ---- how long a frame can stay queued ----

  predicate QueuedAt(queue: seq<Entry<nat>>, k: nat, t: nat) {
    k < |queue| && queue[k].frame == t
  }

  function HighAmong(accepted: seq<Accepted>): nat {
    if accepted == [] then 0
    else
      HighAmong(accepted[..|accepted| - 1]) + if accepted[|accepted| - 1].options.priority == High then 1 else 0
  }

  /** How many high-priority frames have been accepted so far. */
  function HighAccepted(s: Sched): nat {
    HighAmong(s.ledger.accepted)
  }

  /** What a frame at position k of a queue may still have to wait for, offset by what has happened so far. */
  function WaitAt(s: Sched, priority: Priority, k: nat): int {
    match priority
    case High => k + Pops(s)
    case Normal => k + |s.ledger.queues.high| + Pops(s) - HighAccepted(s)
  }

  lemma SubmitHighAccepted(s: Sched, cfg: Config, msgid: MsgId, options: OutOptions)
    ensures var s' := DoSubmit(s, cfg, msgid, options);
      && Pops(s') == Pops(s)
      && |s'.ledger.queues.high| - |s.ledger.queues.high| <= HighAccepted(s') - HighAccepted(s)
  {
    var s' := DoSubmit(s, cfg, msgid, options);
    if s'.ledger != s.ledger {
      assert s'.ledger.accepted[..|s.ledger.accepted|] == s.ledger.accepted;
    }
  }

  /** The regulator takes a frame from this queue. */
  predicate TakesFrom(s: Sched, step: Step, p: Priority) {
    step.Check? && s.phase.Checking? && (p == High || s.ledger.queues.high == [])
  }

  /** Only a frame taken from the same queue adds to what is counted as waited for. */
  lemma WaitAhead(s: Sched, cfg: Config, step: Step, p: Priority)
    requires Pick(s.ledger.queues, p) != []
    ensures WaitAt(Next(s, cfg, step), p, 0) <= WaitAt(s, p, if TakesFrom(s, step, p) then 1 else 0)
  {
    match step
    case Submit(msgid, options) => SubmitHighAccepted(s, cfg, msgid, options);
    case Withdraw(msgid, priority) =>
      assert |CancelIn(s.ledger.queues.high, msgid)| <= |s.ledger.queues.high|;
    case _ =>
  }

  lemma StepMovesForward(s: Sched, cfg: Config, step: Step, p: Priority, k: nat, t: nat) returns (k': nat)
    requires Inv(s, cfg) && QueuedAt(Pick(s.ledger.queues, p), k, t)
    requires t in Tickets(Pick(Next(s, cfg, step).ledger.queues, p))
    ensures QueuedAt(Pick(Next(s, cfg, step).ledger.queues, p), k', t)
    ensures k' <= k - if TakesFrom(s, step, p) then 1 else 0
  {
    var queue, queue' := Pick(s.ledger.queues, p), Pick(Next(s, cfg, step).ledger.queues, p);
    PickOk(s.ledger, cfg.queueMax, p);
    if TakesFrom(s, step, p) {
      assert queue' == queue[1..];
      FrontGone(queue, k, t);
      k' := k - 1;
    } else if step.Submit? && step.options.priority == p {
      assert IsTicketFor(queue[k], s.ledger.accepted, p);
      k' := EnqueueForward(queue, cfg.queueMax, Entry(step.msgid, step.options.policy, |s.ledger.accepted|), k, t);
    } else if step.Withdraw? && step.priority == p {
      k' := RetainForward(queue, NotId(step.msgid), k, t);
    } else {
      assert queue' == queue;
      k' := k;
    }
  }

  lemma FrontGone(queue: seq<Entry<nat>>, k: nat, t: nat)
    requires Pairwise(queue, Rising()) && QueuedAt(queue, k, t) && t in Tickets(queue[1..])
    ensures k > 0 && QueuedAt(queue[1..], k - 1, t)
  {
    var i :| 0 <= i < |queue[1..]| && queue[1..][i].frame == t;
    SamePlace(queue, i + 1, k);
  }

  lemma FramesRise(queue: seq<Entry<nat>>, i: nat, j: nat)
    requires Pairwise(queue, Rising()) && i < j < |queue|
    ensures queue[i].frame < queue[j].frame
  {
    assert Rising()(queue[i], queue[j]);
  }

  lemma SamePlace(queue: seq<Entry<nat>>, i: nat, j: nat)
    requires Pairwise(queue, Rising()) && i < |queue| && j < |queue| && queue[i].frame == queue[j].frame
    ensures i == j
  {
    if i < j {
      FramesRise(queue, i, j);
    } else if j < i {
      FramesRise(queue, j, i);
    }
  }

  lemma RetainForward(queue: seq<Entry<nat>>, keep: Entry<nat> -> bool, k: nat, t: nat) returns (k': nat)
    requires Pairwise(queue, Rising()) && QueuedAt(queue, k, t) && t in Tickets(Retain(queue, keep))
    ensures k' <= k && QueuedAt(Retain(queue, keep), k', t)
  {
    var kept := Retain(queue, keep);
    var i :| 0 <= i < |kept| && kept[i].frame == t;
    assert kept[i] in kept;
    var j :| 0 <= j < |queue| && queue[j] == kept[i];
    SamePlace(queue, j, k);
    RetainPosition(queue, keep, k);
    k' :| 0 <= k' <= k && k' < |kept| && kept[k'] == queue[k];
  }

  lemma EnqueueForward(queue: seq<Entry<nat>>, max: nat, e: Entry<nat>, k: nat, t: nat) returns (k': nat)
    requires Pairwise(queue, Rising()) && QueuedAt(queue, k, t) && e.frame != t
    requires t in Tickets(EnqueueInto(queue, max, e).0)
    ensures k' <= k && QueuedAt(EnqueueInto(queue, max, e).0, k', t)
  {
    var queue' := EnqueueInto(queue, max, e).0;
    if EnqueueInto(queue, max, e).1 == Queue {
      var kept := Retain(queue, NotBelow(e.policy));
      var i :| 0 <= i < |queue'| && queue'[i].frame == t;
      assert kept[i].frame == t;
      k' := RetainForward(queue, NotBelow(e.policy), k, t);
    } else {
      k' := k;
    }
  }

  /** Once gone from its queue, a ticket never returns. */
  lemma GoneStaysGone(s: Sched, cfg: Config, step: Step, p: Priority, t: nat)
    requires Inv(s, cfg) && t < |s.ledger.accepted| && t !in Tickets(Pick(s.ledger.queues, p))
    requires s.ledger.accepted[t].options.priority == p
    ensures t !in Tickets(Pick(Next(s, cfg, step).ledger.queues, p))
  {
    var s' := Next(s, cfg, step);
    NextKeepsInv(s, cfg, step);
    assert OneFate(s.ledger, t) && OneFate(s'.ledger, t);
    QueuedByPriority(s.ledger, cfg.queueMax, t);
    if step.Submit? {
      SubmitPurges(s.ledger, cfg.queueMax, step.msgid, step.options);
    }
  }

  lemma {:induction false} ForwardOverRun(s: Sched, cfg: Config, steps: seq<Step>, p: Priority, k: nat, t: nat)
      returns (k': nat)
    requires Inv(s, cfg) && QueuedAt(Pick(s.ledger.queues, p), k, t)
    requires t in Tickets(Pick(Run(s, cfg, steps).ledger.queues, p))
    ensures QueuedAt(Pick(Run(s, cfg, steps).ledger.queues, p), k', t)
    ensures WaitAt(Run(s, cfg, steps), p, k') <= WaitAt(s, p, k)
  {
    if steps == [] {
      k' := k;
    } else {
      var shorter, step := steps[..|steps| - 1], steps[|steps| - 1];
      RunKeepsInv(s, cfg, shorter);
      var mid := Run(s, cfg, shorter);
      TicketStaysAccepted(s, cfg, shorter, p, k, t);
      if t !in Tickets(Pick(mid.ledger.queues, p)) {
        GoneStaysGone(mid, cfg, step, p, t);
        assert false;
      }
      var m := ForwardOverRun(s, cfg, shorter, p, k, t);
      k' := StepMovesForward(mid, cfg, step, p, m, t);
      WaitAhead(mid, cfg, step, p);
    }
  }

  lemma AcceptedGrows(s: Sched, cfg: Config, step: Step)
    ensures s.ledger.accepted <= Next(s, cfg, step).ledger.accepted
  {
  }

  lemma {:induction false} TicketStaysAccepted(s: Sched, cfg: Config, steps: seq<Step>, p: Priority, k: nat, t: nat)
    requires Inv(s, cfg) && QueuedAt(Pick(s.ledger.queues, p), k, t)
    ensures t < |Run(s, cfg, steps).ledger.accepted|
    ensures Run(s, cfg, steps).ledger.accepted[t].options.priority == p
  {
    if steps == [] {
      PickOk(s.ledger, cfg.queueMax, p);
      assert IsTicketFor(Pick(s.ledger.queues, p)[k], s.ledger.accepted, p);
    } else {
      var shorter, step := steps[..|steps| - 1], steps[|steps| - 1];
      TicketStaysAccepted(s, cfg, shorter, p, k, t);
      AcceptedGrows(Run(s, cfg, shorter), cfg, step);
    }
  }

  /** A frame whose wait has run out has met another fate than staying queued. */
  lemma LeavesWhenWaitIsOver(cfg: Config, before: seq<Step>, steps: seq<Step>, p: Priority, k: nat, t: nat)
    requires var s := Run(INIT, cfg, before);
      QueuedAt(Pick(s.ledger.queues, p), k, t) && WaitAt(Run(s, cfg, steps), p, 0) > WaitAt(s, p, k)
    ensures var g := Run(Run(INIT, cfg, before), cfg, steps).ledger;
      !Queued(g, t) && (t in g.popped || t in g.cancelled || t in g.purgedBy)
  {
    var s := Run(INIT, cfg, before);
    ReachableInv(cfg, before);
    RunKeepsInv(s, cfg, steps);
    var s' := Run(s, cfg, steps);
    TicketStaysAccepted(s, cfg, steps, p, k, t);
    if t in Tickets(Pick(s'.ledger.queues, p)) {
      var k' := ForwardOverRun(s, cfg, steps, p, k, t);
      assert false;
    }
    QueuedByPriority(s'.ledger, cfg.queueMax, t);
    assert OneFate(s'.ledger, t);
  }

  /**
    A high-priority frame with k frames ahead of it is popped, cancelled or purged by the time
    of the (k+1)-th pop from there, whatever else is submitted or withdrawn meanwhile.
   */
  lemma HighFrameLeavesInTime(cfg: Config, before: seq<Step>, steps: seq<Step>, k: nat, t: nat)
    requires var s := Run(INIT, cfg, before);
      QueuedAt(s.ledger.queues.high, k, t) && Pops(Run(s, cfg, steps)) >= Pops(s) + k + 1
    ensures var g := Run(Run(INIT, cfg, before), cfg, steps).ledger;
      !Queued(g, t) && (t in g.popped || t in g.cancelled || t in g.purgedBy)
  {
    LeavesWhenWaitIsOver(cfg, before, steps, High, k, t);
  }

  /**
    A normal frame with k normal and h high-priority frames ahead of it has left by the
    (k+h+a+1)-th pop, if a high-priority frames are accepted until then.
   */
  lemma NormalFrameLeavesInTime(cfg: Config, before: seq<Step>, steps: seq<Step>, k: nat, t: nat)
    requires var s := Run(INIT, cfg, before);
      var s' := Run(s, cfg, steps);
      && QueuedAt(s.ledger.queues.normal, k, t)
      && Pops(s') >= Pops(s) + k + |s.ledger.queues.high| + (HighAccepted(s') - HighAccepted(s)) + 1
    ensures var g := Run(Run(INIT, cfg, before), cfg, steps).ledger;
      !Queued(g, t) && (t in g.popped || t in g.cancelled || t in g.purgedBy)
  {
    LeavesWhenWaitIsOver(cfg, before, steps, Normal, k, t);
  }

  const STARVED := Submit(MsgId(0, None), OutOptions(Normal, Plainly))
  const OVERTAKER := Submit(MsgId(1, None), OutOptions(High, Plainly))

  /** One normal frame, then n times a high-priority frame that the regulator sends at once. */
  function Starving(cfg: Config, n: nat): seq<Step> {
    if n == 0 then [STARVED]
    else WithRound(cfg, Starving(cfg, n - 1))
  }

  function WithRound(cfg: Config, steps: seq<Step>): seq<Step> {
    steps + [OVERTAKER] + [Check] + [Transmit] + [Elapse(cfg.pauseMsec)] + [WakeUp]
  }

  lemma RunOneMore(s: Sched, cfg: Config, steps: seq<Step>, step: Step)
    ensures Run(s, cfg, steps + [step]) == Next(Run(s, cfg, steps), cfg, step)
  {
    assert (steps + [step])[..|steps|] == steps;
  }

  /** One normal frame waits, the regulator is about to look, and n frames have been popped. */
  ghost predicate Starved(s: Sched, n: nat) {
    && Pops(s) == n && HighAccepted(s) == n
    && QueuedAt(s.ledger.queues.normal, 0, 0) && |s.ledger.queues.normal| == 1
    && s.ledger.queues.high == [] && s.phase == Checking
  }

  lemma Overtaken(s: Sched, cfg: Config, n: nat) returns (s': Sched)
    requires Starved(s, n)
    ensures s' == Next(Next(s, cfg, OVERTAKER), cfg, Check)
    ensures Starved(s'.(phase := Checking), n + 1) && s'.phase.Carrying?
  {
    var s1 := Next(s, cfg, OVERTAKER);
    assert s1.ledger.accepted[..|s.ledger.accepted|] == s.ledger.accepted;
    assert s1.ledger.queues == Queues(s.ledger.queues.normal, [Entry(MsgId(1, None), Plainly, |s.ledger.accepted|)]);
    s' := Next(s1, cfg, Check);
  }

  function Sent(s: Sched, cfg: Config): Sched {
    Next(Next(Next(s, cfg, Transmit), cfg, Elapse(cfg.pauseMsec)), cfg, WakeUp)
  }

  lemma BackToChecking(s: Sched, cfg: Config)
    requires s.phase.Carrying?
    ensures Sent(s, cfg).ledger == s.ledger && Sent(s, cfg).phase == Checking
  {
  }

  lemma RunSent(cfg: Config, steps: seq<Step>)
    ensures Run(INIT, cfg, steps + [Transmit] + [Elapse(cfg.pauseMsec)] + [WakeUp]) == Sent(Run(INIT, cfg, steps), cfg)
  {
    RunOneMore(INIT, cfg, steps, Transmit);
    RunOneMore(INIT, cfg, steps + [Transmit], Elapse(cfg.pauseMsec));
    RunOneMore(INIT, cfg, steps + [Transmit] + [Elapse(cfg.pauseMsec)], WakeUp);
  }

  lemma RunRound(cfg: Config, steps: seq<Step>)
    ensures Run(INIT, cfg, WithRound(cfg, steps))
      == Sent(Next(Next(Run(INIT, cfg, steps), cfg, OVERTAKER), cfg, Check), cfg)
  {
    var carrying := steps + [OVERTAKER] + [Check];
    RunOneMore(INIT, cfg, steps, OVERTAKER);
    RunOneMore(INIT, cfg, steps + [OVERTAKER], Check);
    assert Run(INIT, cfg, carrying) == Next(Next(Run(INIT, cfg, steps), cfg, OVERTAKER), cfg, Check);
    RunSent(cfg, carrying);
    assert WithRound(cfg, steps) == carrying + [Transmit] + [Elapse(cfg.pauseMsec)] + [WakeUp];
  }

  lemma NormalJoinsEmpty(s: Sched, cfg: Config, msgid: MsgId)
    requires IsEmpty(s.ledger.queues)
    ensures var s', ticket := DoSubmit(s, cfg, msgid, OutOptions(Normal, Plainly)), |s.ledger.accepted|;
      && s'.phase == s.phase && Pops(s') == Pops(s) && HighAccepted(s') == HighAccepted(s)
      && s'.ledger.queues == Queues([Entry(msgid, Plainly, ticket)], s.ledger.queues.high)
  {
    var queue := s.ledger.queues.normal;
    var e: Entry<nat> := Entry(msgid, Plainly, |s.ledger.accepted|);
    assert queue == [] && EnqueueInto(queue, cfg.queueMax, e).0 == [e];
    var s' := DoSubmit(s, cfg, msgid, OutOptions(Normal, Plainly));
    assert s'.ledger.accepted[..|s.ledger.accepted|] == s.ledger.accepted;
  }

  lemma OneNormalSubmitted(cfg: Config)
    ensures Starved(Next(INIT, cfg, STARVED), 0)
  {
    NormalJoinsEmpty(INIT, cfg, MsgId(0, None));
  }

  /**
    The high-priority frames accepted meanwhile must be counted: any number n of pops can pass by
    the only normal frame there is, and n such frames are all it takes.
   */
  lemma {:induction false} NormalFrameCanStarve(cfg: Config, n: nat)
    ensures Starved(Run(INIT, cfg, Starving(cfg, n)), n)
  {
    if n == 0 {
      OneNormalSubmitted(cfg);
      RunOneMore(INIT, cfg, [], STARVED);
      assert [] + [STARVED] == Starving(cfg, 0);
    } else {
      NormalFrameCanStarve(cfg, n - 1);
      RunRound(cfg, Starving(cfg, n - 1));
      var s' := Overtaken(Run(INIT, cfg, Starving(cfg, n - 1)), cfg, n - 1);
      BackToChecking(s', cfg);
    }
  }

  /** A normal frame is popped only when no high-priority frame is queued. */
  lemma NormalOnlyWhenHighIsEmpty(cfg: Config, steps: seq<Step>)
    ensures var s := Run(INIT, cfg, steps);
      var s' := Next(s, cfg, Check);
      Pops(s') > Pops(s) ==>
        && Pops(s') == Pops(s) + 1
        && var t := s'.ledger.popped[Pops(s)];
           t < |s.ledger.accepted| && (s.ledger.accepted[t].options.priority == Normal ==> s.ledger.queues.high == [])
  {
    var s := Run(INIT, cfg, steps);
    ReachableInv(cfg, steps);
    if s.ledger.queues.high != [] {
      assert IsTicketFor(s.ledger.queues.high[0], s.ledger.accepted, High);
    } else if s.ledger.queues.normal != [] {
      assert IsTicketFor(s.ledger.queues.normal[0], s.ledger.accepted, Normal);
    }
  }

  // ---- class levels ----

  ghost predicate ClassQueued(s: Sched, priority: Priority, className: string) {
    exists level :: AtLevel(Pick(s.ledger.queues, priority), className, level)
  }

  lemma StepRaisesLevel(s: Sched, cfg: Config, step: Step, priority: Priority, className: string, a: u32, b: u32)
    requires Inv(s, cfg) && AtLevel(Pick(s.ledger.queues, priority), className, a)
    requires AtLevel(Pick(Next(s, cfg, step).ledger.queues, priority), className, b)
    ensures a <= b
  {
    var queue, queue' := Pick(s.ledger.queues, priority), Pick(Next(s, cfg, step).ledger.queues, priority);
    if step.Submit? && step.options.priority == priority {
      var e := Entry(step.msgid, step.options.policy, |s.ledger.accepted|);
      EnqueueRaisesLevel(queue, cfg.queueMax, e, className, a, b);
    } else {
      forall e | e in queue' ensures e in queue {
        OnlySubmitAdds(s, cfg, step, priority, e);
      }
      LevelOfSubset(queue, queue', cfg.queueMax, className, a, b);
    }
  }

  lemma OnlySubmitAdds(s: Sched, cfg: Config, step: Step, priority: Priority, e: Entry<nat>)
    requires !(step.Submit? && step.options.priority == priority)
    requires e in Pick(Next(s, cfg, step).ledger.queues, priority)
    ensures e in Pick(s.ledger.queues, priority)
  {
  }

  lemma LevelOfSubset(queue: seq<Entry<nat>>, queue': seq<Entry<nat>>, max: nat, className: string, a: u32, b: u32)
    requires QueueInv(queue, max) && forall e :: e in queue' ==> e in queue
    requires AtLevel(queue, className, a) && AtLevel(queue', className, b)
    ensures a == b
  {
    var i :| 0 <= i < |queue'| && queue'[i].policy == Classy(className, b);
    assert queue'[i] in queue;
    var j :| 0 <= j < |queue| && queue[j] == queue'[i];
    OneLevelEach(queue, max, className, a, b);
  }

  /** At no point of this run is the class gone from the queue. */
  ghost predicate StaysQueued(s: Sched, cfg: Config, steps: seq<Step>, priority: Priority, className: string) {
    && ClassQueued(Run(s, cfg, steps), priority, className)
    && (steps != [] ==> StaysQueued(s, cfg, steps[..|steps| - 1], priority, className))
  }

  /** While a class stays in a queue, its level never decreases. */
  lemma {:induction false} LevelNeverDecreases(
      s: Sched, cfg: Config, steps: seq<Step>, priority: Priority, className: string, a: u32, b: u32)
    requires Inv(s, cfg) && StaysQueued(s, cfg, steps, priority, className)
    requires AtLevel(Pick(s.ledger.queues, priority), className, a)
    requires AtLevel(Pick(Run(s, cfg, steps).ledger.queues, priority), className, b)
    ensures a <= b
  {
    if steps == [] {
      OneLevelEach(Pick(s.ledger.queues, priority), cfg.queueMax, className, a, b);
    } else {
      var shorter := steps[..|steps| - 1];
      var mid := Run(s, cfg, shorter);
      RunKeepsInv(s, cfg, shorter);
      assert ClassQueued(mid, priority, className);
      var c :| AtLevel(Pick(mid.ledger.queues, priority), className, c);
      LevelNeverDecreases(s, cfg, shorter, priority, className, a, c);
      StepRaisesLevel(mid, cfg, steps[|steps| - 1], priority, className, c, b);
    }
  }

  /** In every reachable state each queue has distinct ids, one level per class and at most queueMax + 1 frames. */
  lemma QueuesStayInShape(cfg: Config, steps: seq<Step>, priority: Priority)
    ensures QueueInv(Pick(Run(INIT, cfg, steps).ledger.queues, priority), cfg.queueMax)
  {
    ReachableInv(cfg, steps);
  }

  // ---- cancellation ----

  /** A frame counts as cancelled only if its own id was withdrawn at its own priority. */
  lemma {:induction false} CancelledWasWithdrawn(cfg: Config, steps: seq<Step>, t: nat)
    requires t in Run(INIT, cfg, steps).ledger.cancelled
    ensures var a := Run(INIT, cfg, steps).ledger.accepted;
      t < |a| && Withdraw(a[t].msgid, a[t].options.priority) in steps
  {
    if steps != [] {
      var prefix, step := steps[..|steps| - 1], steps[|steps| - 1];
      var g := Run(INIT, cfg, prefix).ledger;
      assert steps == prefix + [step];
      ReachableInv(cfg, prefix);
      if t in g.cancelled {
        CancelledWasWithdrawn(cfg, prefix, t);
      } else {
        WithdrawnHadId(g, cfg.queueMax, step.msgid, step.priority, t);
      }
    }
  }

  lemma WithdrawnHadId(g: Ledger, queueMax: nat, msgid: MsgId, priority: Priority, t: nat)
    requires LedgerOk(g, queueMax) && t !in g.cancelled && t in Withdrawn(g, msgid, priority).cancelled
    ensures t < |g.accepted| && g.accepted[t].msgid == msgid && g.accepted[t].options.priority == priority
  {
    var queue := Pick(g.queues, priority);
    PickOk(g, queueMax, priority);
    var i :| 0 <= i < |queue| && queue[i].frame == t;
    assert IsTicketFor(queue[i], g.accepted, priority);
    if queue[i].msgid != msgid {
      assert queue[i] in CancelIn(queue, msgid);
      TicketIn(CancelIn(queue, msgid), queue[i]);
    }
  }

  // ---- the length bound is met ----

  function Filling(n: nat): seq<Step>
    requires n < 0x1_0000_0000_0000_0000
  {
    seq(n, i requires 0 <= i < n => Submit(MsgId(i, None), OutOptions(Normal, Plainly)))
  }

  /** The cap is tested before the frame is added, so a queue does reach queueMax + 1 frames. */
  lemma {:induction false} QueueFills(cfg: Config, n: nat)
    requires n < 0x1_0000_0000_0000_0000 && n <= cfg.queueMax + 1
    ensures |Run(INIT, cfg, Filling(n)).ledger.queues.normal| == n
    ensures forall e :: e in Run(INIT, cfg, Filling(n)).ledger.queues.normal ==>
      e.policy == Plainly && e.msgid.base < n
  {
    if n > 0 {
      QueueFills(cfg, n - 1);
      assert Filling(n)[..n - 1] == Filling(n - 1);
      var queue := Run(INIT, cfg, Filling(n - 1)).ledger.queues.normal;
      RetainAll(queue, NotBelow(Plainly));
      forall i | 0 <= i < |queue| ensures queue[i].msgid != MsgId(n - 1, None) {
        assert queue[i] in queue;
      }
    }
  }

  // ---- transmission rate ----

  lemma SendsArePaced(cfg: Config, steps: seq<Step>)
    ensures Spaced(Run(INIT, cfg, steps).sends, cfg.pauseMsec)
  {
    ReachableInv(cfg, steps);
  }

  /** In every run and every window of width msec, at most width / pause + 1 packets go to the radio. */
  lemma RateBound(cfg: Config, steps: seq<Step>, start: nat, width: nat)
    requires cfg.pauseMsec > 0
    ensures |Retain(Run(INIT, cfg, steps).sends, InWindow(start, start + width + 1))| <= width / cfg.pauseMsec + 1
  {
    SendsArePaced(cfg, steps);
    var sends := Run(INIT, cfg, steps).sends;
    WindowFit(sends, cfg.pauseMsec, start, width);
  }

  function ConfigFor(kbps: real): Config
    requires kbps > 0.0
  {
    ThresholdsOrdered(kbps);
    Config(OutgoingPolicyFor(kbps).outgoingQueueMax, OutgoingPolicyFor(kbps).txRateLimitMsec)
  }

  /** The bounds a node keeps at its data rate: packets per window, and the total a length report can show. */
  lemma LimitsAtDataRate(kbps: real, steps: seq<Step>, start: nat, width: nat)
    requires kbps > 0.0
    ensures var s, policy := Run(INIT, ConfigFor(kbps), steps), OutgoingPolicyFor(kbps);
      && policy.txRateLimitMsec >= 1
      && |Retain(s.sends, InWindow(start, start + width + 1))| <= width / policy.txRateLimitMsec + 1
      && |s.ledger.queues.high| + |s.ledger.queues.normal| <= 2 * (policy.outgoingQueueMax + 1)
  {
    ThresholdsOrdered(kbps);
    RateBound(ConfigFor(kbps), steps, start, width);
    QueuesStayInShape(ConfigFor(kbps), steps, High);
    QueuesStayInShape(ConfigFor(kbps), steps, Normal);
  }
}
