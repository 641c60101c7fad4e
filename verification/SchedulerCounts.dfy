/** What the regulator does with what it pops, what a withdrawal takes, and how many wakeups are outstanding. */
module SchedulerCounts {
  import opened Prelude
  import opened LinkTypes
  import opened OutgoingQueues
  import opened Scheduler
  import opened SchedulerRuns

  // ---- every popped frame is sent or fails to encode ----

  function Elapsed(steps: seq<Step>): nat {
    if steps == [] then 0
    else
      var last := steps[|steps| - 1];
      Elapsed(steps[..|steps| - 1]) + if last.Elapse? then last.msec else 0
  }

  /** The step is one for a regulator that has a frame in hand. */
  predicate InHand(cfg: Config, before: seq<Step>) {
    Run(INIT, cfg, before).phase.Carrying?
  }

  function Failures(cfg: Config, steps: seq<Step>): nat {
    if steps == [] then 0
    else
      var before := steps[..|steps| - 1];
      Failures(cfg, before) + if steps[|steps| - 1].EncodeFailed? && InHand(cfg, before) then 1 else 0
  }

  function TransmitTimes(cfg: Config, steps: seq<Step>): seq<nat> {
    if steps == [] then []
    else
      var before := steps[..|steps| - 1];
      TransmitTimes(cfg, before) +
        if steps[|steps| - 1].Transmit? && InHand(cfg, before) then [Elapsed(before)] else []
  }

  /** Every popped frame but one still in hand has been sent, at the clock of that step, or could not be encoded. */
  lemma {:induction false} PoppedIsSent(cfg: Config, steps: seq<Step>)
    ensures var s := Run(INIT, cfg, steps);
      && s.now == Elapsed(steps) && s.sends == TransmitTimes(cfg, steps)
      && Pops(s) == |s.sends| + Failures(cfg, steps) + if s.phase.Carrying? then 1 else 0
  {
    if steps != [] {
      PoppedIsSent(cfg, steps[..|steps| - 1]);
      StepCounts(Run(INIT, cfg, steps[..|steps| - 1]), cfg, steps[|steps| - 1]);
    }
  }

  lemma StepCounts(s: Sched, cfg: Config, step: Step)
    ensures var s' := Next(s, cfg, step);
      && s'.now == s.now + (if step.Elapse? then step.msec else 0)
      && s'.sends == s.sends + (if step.Transmit? && s.phase.Carrying? then [s.now] else [])
      && Pops(s') - Pops(s) == (if step.Transmit? && s.phase.Carrying? then 1 else 0)
        + (if step.EncodeFailed? && s.phase.Carrying? then 1 else 0)
        + (if s'.phase.Carrying? then 1 else 0) - (if s.phase.Carrying? then 1 else 0)
  {
    assert s.sends + [] == s.sends;
  }

  /** A frame that cannot be encoded costs no pause: with another queued, it is popped at the same clock. */
  lemma FailureCostsNoPause(s: Sched, cfg: Config)
    requires s.phase.Carrying? && !IsEmpty(s.ledger.queues)
    ensures var s' := Next(Next(s, cfg, EncodeFailed), cfg, Check);
      Pops(s') == Pops(s) + 1 && s'.now == s.now && s'.sends == s.sends
  {
  }

  // ---- withdrawals ----

  /** A queued frame with this id at this priority. */
  predicate Meant(g: Ledger, t: nat, msgid: MsgId, priority: Priority) {
    t < |g.accepted| && Queued(g, t) && g.accepted[t].msgid == msgid && g.accepted[t].options.priority == priority
  }

  /** A withdrawal cancels exactly the queued frames with its id at its priority, and changes nothing else. */
  lemma WithdrawTakesAll(cfg: Config, steps: seq<Step>, msgid: MsgId, priority: Priority)
    ensures var g, g' := Run(INIT, cfg, steps).ledger, Run(INIT, cfg, steps + [Withdraw(msgid, priority)]).ledger;
      && (forall t :: t in g'.cancelled <==> t in g.cancelled || Meant(g, t, msgid, priority))
      && (forall t: nat :: Queued(g', t) <==> Queued(g, t) && !Meant(g, t, msgid, priority))
      && g'.accepted == g.accepted && g'.popped == g.popped && g'.purgedBy == g.purgedBy
  {
    var g := Run(INIT, cfg, steps).ledger;
    ReachableInv(cfg, steps);
    RunOneMore(INIT, cfg, steps, Withdraw(msgid, priority));
    forall t: nat
      ensures t in Tickets(CancelIn(Pick(g.queues, priority), msgid)) <==>
        t in Tickets(Pick(g.queues, priority)) && !Meant(g, t, msgid, priority)
      ensures Meant(g, t, msgid, priority) ==> t in Tickets(Pick(g.queues, priority))
    {
      QueuedByPriority(g, cfg.queueMax, t);
      PickOk(g, cfg.queueMax, priority);
      TicketAfterCancel(Pick(g.queues, priority), cfg.queueMax, g.accepted, priority, msgid, t);
    }
    forall t: nat
      ensures Queued(Withdrawn(g, msgid, priority), t) <==> Queued(g, t) && !Meant(g, t, msgid, priority)
    {
      QueuedByPriority(g, cfg.queueMax, t);
    }
  }

  lemma TicketAfterCancel(
      queue: seq<Entry<nat>>, queueMax: nat, accepted: seq<Accepted>, priority: Priority, msgid: MsgId, t: nat)
    requires QueueOk(queue, queueMax, accepted, priority)
    ensures t in Tickets(CancelIn(queue, msgid)) <==>
      t in Tickets(queue) && t < |accepted| && accepted[t].msgid != msgid
  {
    var kept := CancelIn(queue, msgid);
    if t in Tickets(queue) {
      var i :| 0 <= i < |queue| && queue[i].frame == t;
      assert IsTicketFor(queue[i], accepted, priority);
      if queue[i].msgid != msgid {
        assert queue[i] in kept;
        TicketIn(kept, queue[i]);
      }
    }
    if t in Tickets(kept) {
      var i :| 0 <= i < |kept| && kept[i].frame == t;
      assert kept[i] in kept;
      var j :| 0 <= j < |queue| && queue[j] == kept[i];
      assert IsTicketFor(queue[j], accepted, priority);
    }
  }

  // ---- wakeups ----

  function Accepted(cfg: Config, steps: seq<Step>): nat {
    |Run(INIT, cfg, steps).ledger.accepted|
  }

  /** How often a frame was accepted while both queues were empty. */
  function WakeupsSent(cfg: Config, steps: seq<Step>): nat {
    if steps == [] then 0
    else
      var before := steps[..|steps| - 1];
      var q := Run(INIT, cfg, before).ledger.queues;
      WakeupsSent(cfg, before) +
        if Accepted(cfg, steps) > Accepted(cfg, before) && q.high == [] && q.normal == [] then 1 else 0
  }

  /** How often the regulator, waiting, was woken. */
  function WakeupsReceived(cfg: Config, steps: seq<Step>): nat {
    if steps == [] then 0
    else
      var before := steps[..|steps| - 1];
      WakeupsReceived(cfg, before) +
        if steps[|steps| - 1].ReceiveToken? && Run(INIT, cfg, before).phase.Waiting? && Run(INIT, cfg, steps).phase.Checking?
        then 1 else 0
  }

  /** Each wakeup is sent for one frame that found both queues empty, and received once. */
  lemma {:induction false} WakeupsBalance(cfg: Config, steps: seq<Step>)
    ensures Run(INIT, cfg, steps).tokens + WakeupsReceived(cfg, steps) == WakeupsSent(cfg, steps)
  {
    if steps != [] {
      WakeupsBalance(cfg, steps[..|steps| - 1]);
      TokensStep(Run(INIT, cfg, steps[..|steps| - 1]), cfg, steps[|steps| - 1]);
    }
  }

  lemma TokensStep(s: Sched, cfg: Config, step: Step)
    ensures var s' := Next(s, cfg, step);
      && s'.tokens - s.tokens ==
        (if |s'.ledger.accepted| > |s.ledger.accepted| && s.ledger.queues.high == [] && s.ledger.queues.normal == []
         then 1 else 0)
        - (if step.ReceiveToken? && s.phase.Waiting? && s'.phase.Checking? then 1 else 0)
  {
  }

  /** With nothing queued and no wakeup outstanding, the regulator comes to rest within three turns. */
  lemma RestsWhenIdle(s: Sched, cfg: Config)
    requires s.ledger.queues.high == [] && s.ledger.queues.normal == [] && s.tokens == 0
    ensures var s3 := RegulatorTurn(RegulatorTurn(RegulatorTurn(s, cfg), cfg), cfg);
      s3.phase.Waiting? && s3.ledger == s.ledger && RegulatorTurn(s3, cfg) == s3
  {
    TurnTowardsRest(s, cfg);
    TurnTowardsRest(RegulatorTurn(s, cfg), cfg);
    TurnTowardsRest(RegulatorTurn(RegulatorTurn(s, cfg), cfg), cfg);
  }

  lemma TurnTowardsRest(s: Sched, cfg: Config)
    requires s.ledger.queues.high == [] && s.ledger.queues.normal == [] && s.tokens == 0
    ensures var s' := RegulatorTurn(s, cfg);
      && s'.ledger == s.ledger && s'.tokens == 0
      && match s.phase
         case Carrying(_) => s'.phase.Sleeping?
         case Sleeping(_) => s'.phase.Checking?
         case Checking => s'.phase.Waiting?
         case Waiting => s' == s
  {
  }

  ghost predicate FewTokens(s: Sched) {
    s.tokens <= Pops(s) + |s.ledger.cancelled| + if IsEmpty(s.ledger.queues) then 0 else 1
  }

  /** Wakeups do not pile up: each but the last goes with a frame that was popped or cancelled since. */
  lemma {:induction false} WakeupsAreFew(cfg: Config, steps: seq<Step>)
    ensures FewTokens(Run(INIT, cfg, steps))
  {
    if steps != [] {
      var shorter, step := steps[..|steps| - 1], steps[|steps| - 1];
      WakeupsAreFew(cfg, shorter);
      ReachableInv(cfg, shorter);
      StepKeepsFew(Run(INIT, cfg, shorter), cfg, step);
    }
  }

  lemma StepKeepsFew(s: Sched, cfg: Config, step: Step)
    requires FewTokens(s) && Inv(s, cfg)
    ensures FewTokens(Next(s, cfg, step))
  {
    match step
    case Submit(msgid, options) => SubmitKeepsFew(s, cfg, msgid, options);
    case Withdraw(msgid, priority) => WithdrawKeepsFew(s, cfg, msgid, priority);
    case _ =>
  }

  lemma SubmitKeepsFew(s: Sched, cfg: Config, msgid: MsgId, options: OutOptions)
    requires FewTokens(s)
    ensures FewTokens(DoSubmit(s, cfg, msgid, options))
  {
    var queue := Pick(s.ledger.queues, options.priority);
    var e: Entry<nat> := Entry(msgid, options.policy, |s.ledger.accepted|);
    assert EnqueueInto(queue, cfg.queueMax, e).1 == Queue ==> EnqueueInto(queue, cfg.queueMax, e).0 != [];
  }

  lemma WithdrawKeepsFew(s: Sched, cfg: Config, msgid: MsgId, priority: Priority)
    requires FewTokens(s) && Inv(s, cfg)
    ensures FewTokens(s.(ledger := Withdrawn(s.ledger, msgid, priority)))
  {
    var g, g' := s.ledger, Withdrawn(s.ledger, msgid, priority);
    var queue, queue' := Pick(g.queues, priority), Pick(g'.queues, priority);
    SubsetSize(g.cancelled, g'.cancelled);
    if queue != [] && queue' == [] {
      TicketIn(queue, queue[0]);
      var t := queue[0].frame;
      assert Queued(g, t);
      QueuedByPriority(g, cfg.queueMax, t);
      assert OneFate(g, t);
      assert t in g'.cancelled && t !in g.cancelled;
      SubsetSize(g.cancelled + {t}, g'.cancelled);
    }
  }
}
