/**
  The outgoing queues and the regulator task over whole runs. Each accepted frame gets a ticket,
  its number in acceptance order, and every step is one turn under the queues lock or one action
  of the regulator.
 */
module Scheduler {
  import opened Prelude
  import opened Spacing
  import opened LinkTypes
  import opened OutgoingQueues

  /** Where the regulator task is. */
  datatype Phase = Checking | Carrying(ticket: nat) | Sleeping(until: nat) | Waiting

  datatype Accepted = Accepted(msgid: MsgId, options: OutOptions)

  /** The queues with the record of what was accepted and what became of it. */
  datatype Ledger = Ledger(
    queues: Queues<nat>,
    accepted: seq<Accepted>,  // by ticket
    popped: seq<nat>,
    cancelled: set<nat>,
    purgedBy: map<nat, nat>)  // the ticket in whose favour a ticket was purged

  datatype Sched = Sched(
    ledger: Ledger,
    tokens: nat,              // wakeups sent and not yet received
    phase: Phase,
    now: nat,                 // milliseconds
    sends: seq<nat>)          // times of handing a packet to the radio

  datatype Config = Config(queueMax: nat, pauseMsec: nat)

  datatype Step =
    | Submit(msgid: MsgId, options: OutOptions)
    | Withdraw(msgid: MsgId, priority: Priority)
    | Check                   // take the queues; pop a frame or go wait
    | EncodeFailed            // the popped frame cannot be encoded: straight back to the queues
    | Transmit
    | WakeUp
    | ReceiveToken
    | Elapse(msec: nat)

  const INIT := Sched(Ledger(Queues([], []), [], [], {}, map[]), 0, Checking, 0, [])

  function Tickets(queue: seq<Entry<nat>>): set<nat> {
    set i | 0 <= i < |queue| :: queue[i].frame
  }

  function Submitted(g: Ledger, queueMax: nat, msgid: MsgId, options: OutOptions): Ledger {
    var ticket := |g.accepted|;
    var (queues, action) := AfterEnqueue(g.queues, queueMax, msgid, ticket, options);
    if action != Queue then g
    else
      var gone := Tickets(Pick(g.queues, options.priority)) - Tickets(Pick(queues, options.priority));
      g.(queues := queues,
         accepted := g.accepted + [Accepted(msgid, options)],
         purgedBy := g.purgedBy + map t | t in gone :: ticket)
  }

  function Withdrawn(g: Ledger, msgid: MsgId, priority: Priority): Ledger {
    var queues := AfterCancel(g.queues, msgid, priority);
    var gone := Tickets(Pick(g.queues, priority)) - Tickets(Pick(queues, priority));
    g.(queues := queues, cancelled := g.cancelled + gone)
  }

  function DoSubmit(s: Sched, cfg: Config, msgid: MsgId, options: OutOptions): Sched {
    var ledger := Submitted(s.ledger, cfg.queueMax, msgid, options);
    var queued := |ledger.accepted| > |s.ledger.accepted|;
    s.(ledger := ledger, tokens := if queued && IsEmpty(s.ledger.queues) then s.tokens + 1 else s.tokens)
  }

  function DoCheck(s: Sched): Sched {
    var (queues, next) := PopFront(s.ledger.queues);
    match next
    case Some(e) =>
      s.(ledger := s.ledger.(queues := queues, popped := s.ledger.popped + [e.frame]), phase := Carrying(e.frame))
    case None => s.(phase := Waiting)
  }

  /** One step; a step whose guard fails leaves the state as it is. */
  function Next(s: Sched, cfg: Config, step: Step): Sched {
    match step
    case Submit(msgid, options) => DoSubmit(s, cfg, msgid, options)
    case Withdraw(msgid, priority) => s.(ledger := Withdrawn(s.ledger, msgid, priority))
    case Check => if s.phase.Checking? then DoCheck(s) else s
    case EncodeFailed => if s.phase.Carrying? then s.(phase := Checking) else s
    case Transmit =>
      if s.phase.Carrying? then s.(sends := s.sends + [s.now], phase := Sleeping(s.now + cfg.pauseMsec)) else s
    case WakeUp => if s.phase.Sleeping? && s.phase.until <= s.now then s.(phase := Checking) else s
    case ReceiveToken =>
      if s.phase.Waiting? && s.tokens > 0 then s.(tokens := s.tokens - 1, phase := Checking) else s
    case Elapse(msec) => s.(now := s.now + msec)
  }

  function Run(s: Sched, cfg: Config, steps: seq<Step>): Sched {
    if steps == [] then s else Next(Run(s, cfg, steps[..|steps| - 1]), cfg, steps[|steps| - 1])
  }

  // ---- invariants ----

  ghost function Rising(): (Entry<nat>, Entry<nat>) -> bool {
    (a: Entry<nat>, b: Entry<nat>) => a.frame < b.frame
  }

  predicate IsTicketFor(e: Entry<nat>, accepted: seq<Accepted>, priority: Priority) {
    e.frame < |accepted| && accepted[e.frame] == Accepted(e.msgid, OutOptions(priority, e.policy))
  }

  /** Queued entries are what was accepted, in acceptance order. */
  ghost predicate QueueOk(queue: seq<Entry<nat>>, queueMax: nat, accepted: seq<Accepted>, priority: Priority) {
    && QueueInv(queue, queueMax)
    && Pairwise(queue, Rising())
    && forall i :: 0 <= i < |queue| ==> IsTicketFor(queue[i], accepted, priority)
  }

  predicate Queued(g: Ledger, t: nat) {
    t in Tickets(g.queues.normal) || t in Tickets(g.queues.high)
  }

  /** Ticket t has met exactly one of the four fates. */
  predicate OneFate(g: Ledger, t: nat) {
    || (Queued(g, t) && t !in g.popped && t !in g.cancelled && t !in g.purgedBy)
    || (!Queued(g, t) && t in g.popped && t !in g.cancelled && t !in g.purgedBy)
    || (!Queued(g, t) && t !in g.popped && t in g.cancelled && t !in g.purgedBy)
    || (!Queued(g, t) && t !in g.popped && t !in g.cancelled && t in g.purgedBy)
  }

  predicate NoFate(g: Ledger, t: nat) {
    !Queued(g, t) && t !in g.popped && t !in g.cancelled && t !in g.purgedBy
  }

  /** Conservation: accepted frames are exactly those queued, popped, cancelled or purged, each once. */
  ghost predicate Conserved(g: Ledger) {
    && (forall t: nat :: if t < |g.accepted| then OneFate(g, t) else NoFate(g, t))
    && (forall i, j :: 0 <= i < j < |g.popped| ==> g.popped[i] != g.popped[j])
  }

  predicate SamePriority(g: Ledger, t: nat, u: nat) {
    t < |g.accepted| && u < |g.accepted| && g.accepted[t].options.priority == g.accepted[u].options.priority
  }

  /** Frames of one priority are popped in acceptance order, and before those still queued. */
  ghost predicate InOrder(g: Ledger) {
    && (forall i, j :: 0 <= i < j < |g.popped| && SamePriority(g, g.popped[i], g.popped[j]) ==>
      g.popped[i] < g.popped[j])
    && (forall i, t: nat :: 0 <= i < |g.popped| && Queued(g, t) && SamePriority(g, g.popped[i], t) ==>
      g.popped[i] < t)
  }

  /** A frame is purged only for a later one of the same priority and class at a higher level. */
  ghost predicate PurgedForHigher(g: Ledger) {
    forall t :: t in g.purgedBy ==> PurgeJustified(g, t, g.purgedBy[t])
  }

  predicate PurgeJustified(g: Ledger, t: nat, u: nat) {
    t < u && SamePriority(g, t, u) && Below(g.accepted[t].options.policy, g.accepted[u].options.policy)
  }

  predicate PurgedFor(g: Ledger, t: nat, u: nat) {
    t in g.purgedBy && g.purgedBy[t] == u
  }

  ghost predicate LedgerOk(g: Ledger, queueMax: nat) {
    && QueueOk(g.queues.normal, queueMax, g.accepted, Normal)
    && QueueOk(g.queues.high, queueMax, g.accepted, High)
    && Conserved(g) && InOrder(g) && PurgedForHigher(g)
  }

  /** No lost wakeup: a regulator that waits without a token has nothing to send. */
  predicate NoLostWakeup(s: Sched) {
    s.phase.Waiting? && s.tokens == 0 ==> IsEmpty(s.ledger.queues)
  }

  /** Sends are pauseMsec apart, and the next one is not yet due while the regulator sleeps. */
  ghost predicate Paced(s: Sched, pauseMsec: nat) {
    && Spaced(s.sends, pauseMsec)
    && (s.sends != [] ==>
      s.sends[|s.sends| - 1] + pauseMsec <= if s.phase.Sleeping? then s.phase.until else s.now)
  }

  ghost predicate Inv(s: Sched, cfg: Config) {
    LedgerOk(s.ledger, cfg.queueMax) && NoLostWakeup(s) && Paced(s, cfg.pauseMsec)
  }

  // ---- one queue at a time ----

  lemma TicketIn(queue: seq<Entry<nat>>, e: Entry<nat>)
    requires e in queue
    ensures e.frame in Tickets(queue)
  {
    var i :| 0 <= i < |queue| && queue[i] == e;
  }

  lemma EnqueueQueueOk(
      queue: seq<Entry<nat>>, queueMax: nat, accepted: seq<Accepted>, priority: Priority, e: Entry<nat>)
    requires QueueOk(queue, queueMax, accepted, priority) && e.frame == |accepted|
    requires EnqueueInto(queue, queueMax, e).1 == Queue
    ensures QueueOk(EnqueueInto(queue, queueMax, e).0, queueMax,
      accepted + [Accepted(e.msgid, OutOptions(priority, e.policy))], priority)
  {
    EnqueueKeepsInv(queue, queueMax, e);
    RetainPairwise(queue, NotBelow(e.policy), Rising());
    var kept := Retain(queue, NotBelow(e.policy));
    forall i | 0 <= i < |kept| ensures IsTicketFor(kept[i], accepted, priority) {
      assert kept[i] in kept;
    }
  }

  lemma CancelQueueOk(queue: seq<Entry<nat>>, queueMax: nat, accepted: seq<Accepted>, priority: Priority, msgid: MsgId)
    requires QueueOk(queue, queueMax, accepted, priority)
    ensures QueueOk(CancelIn(queue, msgid), queueMax, accepted, priority)
  {
    CancelKeepsInv(queue, queueMax, msgid);
    RetainPairwise(queue, NotId(msgid), Rising());
    var kept := CancelIn(queue, msgid);
    forall i | 0 <= i < |kept| ensures IsTicketFor(kept[i], accepted, priority) {
      assert kept[i] in kept;
    }
  }

  lemma TailQueueOk(queue: seq<Entry<nat>>, queueMax: nat, accepted: seq<Accepted>, priority: Priority)
    requires QueueOk(queue, queueMax, accepted, priority) && queue != []
    ensures QueueOk(queue[1..], queueMax, accepted, priority)
    ensures Tickets(queue[1..]) == Tickets(queue) - {queue[0].frame}
    ensures forall t :: t in Tickets(queue[1..]) ==> queue[0].frame < t
  {
    forall i, j | 0 <= i < j < |queue| ensures DifferentIds<nat>()(queue[i], queue[j])
      && SameLevel<nat>()(queue[i], queue[j]) && Rising()(queue[i], queue[j]) {
    }
    forall t | t in Tickets(queue[1..]) ensures t in Tickets(queue) && queue[0].frame < t {
      var i :| 0 <= i < |queue[1..]| && queue[1..][i].frame == t;
      assert queue[i + 1].frame == t;
      assert Rising()(queue[0], queue[i + 1]);
    }
    forall t | t in Tickets(queue) - {queue[0].frame} ensures t in Tickets(queue[1..]) {
      var i :| 0 <= i < |queue| && queue[i].frame == t;
      assert queue[1..][i - 1].frame == t;
    }
  }

  lemma MoreAcceptedQueueOk(
      queue: seq<Entry<nat>>, queueMax: nat, accepted: seq<Accepted>, priority: Priority, a: Accepted)
    requires QueueOk(queue, queueMax, accepted, priority)
    ensures QueueOk(queue, queueMax, accepted + [a], priority)
  {
    forall i | 0 <= i < |queue| ensures IsTicketFor(queue[i], accepted + [a], priority) {
      assert IsTicketFor(queue[i], accepted, priority);
    }
  }

  lemma EnqueueTickets(queue: seq<Entry<nat>>, max: nat, e: Entry<nat>)
    requires EnqueueInto(queue, max, e).1 == Queue
    ensures e.frame in Tickets(EnqueueInto(queue, max, e).0)
    ensures Tickets(EnqueueInto(queue, max, e).0) <= Tickets(queue) + {e.frame}
  {
    var queue' := EnqueueInto(queue, max, e).0;
    assert queue'[|queue'| - 1] == e;
    forall t | t in Tickets(queue') ensures t in Tickets(queue) + {e.frame} {
      var i :| 0 <= i < |queue'| && queue'[i].frame == t;
      if i < |queue'| - 1 {
        assert queue'[i] in Retain(queue, NotBelow(e.policy));
        TicketIn(queue, queue'[i]);
      }
    }
  }

  lemma CancelTickets(queue: seq<Entry<nat>>, msgid: MsgId)
    ensures Tickets(CancelIn(queue, msgid)) <= Tickets(queue)
  {
    forall t | t in Tickets(CancelIn(queue, msgid)) ensures t in Tickets(queue) {
      var i :| 0 <= i < |CancelIn(queue, msgid)| && CancelIn(queue, msgid)[i].frame == t;
      TicketIn(queue, CancelIn(queue, msgid)[i]);
    }
  }

  lemma QueuedByPriority(g: Ledger, queueMax: nat, t: nat)
    requires LedgerOk(g, queueMax)
    ensures t in Tickets(g.queues.normal) ==> t < |g.accepted| && g.accepted[t].options.priority == Normal
    ensures t in Tickets(g.queues.high) ==> t < |g.accepted| && g.accepted[t].options.priority == High
  {
  }

  // ---- each step keeps the invariant ----

  lemma SubmitKeepsQueues(g: Ledger, queueMax: nat, msgid: MsgId, options: OutOptions)
    requires LedgerOk(g, queueMax)
    ensures var g' := Submitted(g, queueMax, msgid, options);
      QueueOk(g'.queues.normal, queueMax, g'.accepted, Normal) && QueueOk(g'.queues.high, queueMax, g'.accepted, High)
  {
    var p, e := options.priority, Entry(msgid, options.policy, |g.accepted|);
    var queue := Pick(g.queues, p);
    if EnqueueInto(queue, queueMax, e).1 == Queue {
      EnqueueQueueOk(queue, queueMax, g.accepted, p, e);
      assert options == OutOptions(p, options.policy);
      match p {
        case Normal => MoreAcceptedQueueOk(g.queues.high, queueMax, g.accepted, High, Accepted(msgid, options));
        case High => MoreAcceptedQueueOk(g.queues.normal, queueMax, g.accepted, Normal, Accepted(msgid, options));
      }
    }
  }

  lemma SubmitQueued(g: Ledger, queueMax: nat, msgid: MsgId, options: OutOptions)
    requires LedgerOk(g, queueMax)
    requires var g' := Submitted(g, queueMax, msgid, options); g' != g
    ensures var g', ticket := Submitted(g, queueMax, msgid, options), |g.accepted|;
      && (forall t: nat :: Queued(g', t) <==> t == ticket || (Queued(g, t) && !PurgedFor(g', t, ticket)))
      && (forall t: nat :: t in g'.purgedBy && t !in g.purgedBy ==> Queued(g, t) && g'.purgedBy[t] == ticket)
      && (forall t: nat :: t in g.purgedBy ==> t in g'.purgedBy)
  {
    var p, e := options.priority, Entry(msgid, options.policy, |g.accepted|);
    var g' := Submitted(g, queueMax, msgid, options);
    EnqueueTickets(Pick(g.queues, p), queueMax, e);
    forall t: nat
      ensures Queued(g', t) <==> t == |g.accepted| || (Queued(g, t) && !PurgedFor(g', t, |g.accepted|))
    {
      QueuedByPriority(g, queueMax, t);
      assert t < |g.accepted| ==> OneFate(g, t);
      if t in g.purgedBy {
        assert PurgeJustified(g, t, g.purgedBy[t]);
      }
    }
  }

  lemma SubmitConserves(g: Ledger, queueMax: nat, msgid: MsgId, options: OutOptions)
    requires LedgerOk(g, queueMax)
    ensures Conserved(Submitted(g, queueMax, msgid, options))
    ensures InOrder(Submitted(g, queueMax, msgid, options))
  {
    var g' := Submitted(g, queueMax, msgid, options);
    if g' != g {
      SubmitQueued(g, queueMax, msgid, options);
      forall t: nat ensures if t < |g'.accepted| then OneFate(g', t) else NoFate(g', t) {
        assert if t < |g.accepted| then OneFate(g, t) else NoFate(g, t);
      }
      forall i | 0 <= i < |g.popped| ensures g.popped[i] < |g.accepted| {
        assert !NoFate(g, g.popped[i]);
      }
      forall t: nat, u: nat | t < |g.accepted| && u < |g.accepted|
        ensures SamePriority(g', t, u) <==> SamePriority(g, t, u)
      {
      }
    }
  }

  lemma SubmitPurges(g: Ledger, queueMax: nat, msgid: MsgId, options: OutOptions)
    requires LedgerOk(g, queueMax)
    ensures PurgedForHigher(Submitted(g, queueMax, msgid, options))
  {
    forall t | t in Submitted(g, queueMax, msgid, options).purgedBy {
      PurgeIsJustified(g, queueMax, msgid, options, t);
    }
  }

  lemma PurgeIsJustified(g: Ledger, queueMax: nat, msgid: MsgId, options: OutOptions, t: nat)
    requires LedgerOk(g, queueMax) && t in Submitted(g, queueMax, msgid, options).purgedBy
    ensures var g' := Submitted(g, queueMax, msgid, options); PurgeJustified(g', t, g'.purgedBy[t])
  {
    if t in g.purgedBy {
      EarlierPurge(g, queueMax, msgid, options, t);
    } else {
      PickOk(g, queueMax, options.priority);
      PurgeReason(g, queueMax, msgid, options, t);
    }
  }

  lemma PickOk(g: Ledger, queueMax: nat, priority: Priority)
    requires LedgerOk(g, queueMax)
    ensures QueueOk(Pick(g.queues, priority), queueMax, g.accepted, priority)
  {
  }

  lemma EarlierPurge(g: Ledger, queueMax: nat, msgid: MsgId, options: OutOptions, t: nat)
    requires LedgerOk(g, queueMax) && t in g.purgedBy
    ensures var g' := Submitted(g, queueMax, msgid, options);
      t in g'.purgedBy && PurgeJustified(g', t, g'.purgedBy[t])
  {
    assert PurgeJustified(g, t, g.purgedBy[t]);
    assert OneFate(g, t);
    var p := options.priority;
    var queue := Pick(g.queues, p);
    assert t !in Tickets(queue);
  }

  lemma PurgeReason(g: Ledger, queueMax: nat, msgid: MsgId, options: OutOptions, t: nat)
    requires QueueOk(Pick(g.queues, options.priority), queueMax, g.accepted, options.priority)
    requires t !in g.purgedBy && t in Submitted(g, queueMax, msgid, options).purgedBy
    ensures PurgeJustified(Submitted(g, queueMax, msgid, options), t, |g.accepted|)
    ensures Submitted(g, queueMax, msgid, options).purgedBy[t] == |g.accepted|
  {
    var p, e := options.priority, Entry(msgid, options.policy, |g.accepted|);
    var queue := Pick(g.queues, p);
    GoneIsBelow(queue, queueMax, e, t);
    var i :| 0 <= i < |queue| && queue[i].frame == t && Below(queue[i].policy, e.policy);
    assert IsTicketFor(queue[i], g.accepted, p);
  }

  lemma GoneIsBelow(queue: seq<Entry<nat>>, max: nat, e: Entry<nat>, t: nat)
    requires t in Tickets(queue) && t !in Tickets(EnqueueInto(queue, max, e).0)
    ensures exists i :: 0 <= i < |queue| && queue[i].frame == t && Below(queue[i].policy, e.policy)
  {
    var i :| 0 <= i < |queue| && queue[i].frame == t;
    OnlyLowerIsDisplaced(queue, max, e, queue[i]);
    if queue[i] in EnqueueInto(queue, max, e).0 {
      TicketIn(EnqueueInto(queue, max, e).0, queue[i]);
    }
  }

  lemma WithdrawKeepsLedger(g: Ledger, queueMax: nat, msgid: MsgId, priority: Priority)
    requires LedgerOk(g, queueMax)
    ensures LedgerOk(Withdrawn(g, msgid, priority), queueMax)
  {
    var g' := Withdrawn(g, msgid, priority);
    var queue := Pick(g.queues, priority);
    CancelQueueOk(queue, queueMax, g.accepted, priority, msgid);
    CancelTickets(queue, msgid);
    var gone := Tickets(queue) - Tickets(Pick(g'.queues, priority));
    forall t: nat ensures Queued(g', t) <==> Queued(g, t) && t !in gone {
      QueuedByPriority(g, queueMax, t);
    }
    forall t: nat ensures if t < |g'.accepted| then OneFate(g', t) else NoFate(g', t) {
      assert if t < |g.accepted| then OneFate(g, t) else NoFate(g, t);
    }
    forall t | t in g'.purgedBy ensures PurgeJustified(g', t, g'.purgedBy[t]) {
      assert PurgeJustified(g, t, g.purgedBy[t]);
    }
    assert forall t: nat, u: nat :: SamePriority(g', t, u) <==> SamePriority(g, t, u);
  }

  lemma CheckKeepsLedger(s: Sched, queueMax: nat)
    requires LedgerOk(s.ledger, queueMax)
    ensures LedgerOk(DoCheck(s).ledger, queueMax)
  {
    var g, g' := s.ledger, DoCheck(s).ledger;
    if !IsEmpty(g.queues) {
      var p := if g.queues.high != [] then High else Normal;
      var queue := Pick(g.queues, p);
      var front := queue[0].frame;
      TailQueueOk(queue, queueMax, g.accepted, p);
      TicketIn(queue, queue[0]);
      QueuedByPriority(g, queueMax, front);
      forall t: nat ensures Queued(g', t) <==> Queued(g, t) && t != front {
        QueuedByPriority(g, queueMax, t);
      }
      PopConserves(g, g', queueMax, front);
      forall t: nat | Queued(g', t) && SamePriority(g', front, t) ensures front < t {
        QueuedByPriority(g, queueMax, t);
      }
      PopInOrder(g, g', queueMax, front);
    }
  }

  lemma PopConserves(g: Ledger, g': Ledger, queueMax: nat, front: nat)
    requires Conserved(g) && Queued(g, front)
    requires g' == g.(queues := g'.queues, popped := g.popped + [front])
    requires forall t: nat :: Queued(g', t) <==> Queued(g, t) && t != front
    ensures Conserved(g')
  {
    assert if front < |g.accepted| then OneFate(g, front) else NoFate(g, front);
    forall t: nat ensures if t < |g'.accepted| then OneFate(g', t) else NoFate(g', t) {
      assert if t < |g.accepted| then OneFate(g, t) else NoFate(g, t);
    }
  }

  lemma PopInOrder(g: Ledger, g': Ledger, queueMax: nat, front: nat)
    requires InOrder(g) && PurgedForHigher(g) && Queued(g, front)
    requires g' == g.(queues := g'.queues, popped := g.popped + [front])
    requires forall t: nat :: Queued(g', t) <==> Queued(g, t) && t != front
    requires forall t: nat :: Queued(g', t) && SamePriority(g', front, t) ==> front < t
    ensures InOrder(g') && PurgedForHigher(g')
  {
    assert forall t: nat, u: nat :: SamePriority(g', t, u) <==> SamePriority(g, t, u);
    forall t | t in g'.purgedBy ensures PurgeJustified(g', t, g'.purgedBy[t]) {
      assert PurgeJustified(g, t, g.purgedBy[t]);
    }
  }

  lemma NextKeepsLedger(s: Sched, cfg: Config, step: Step)
    requires LedgerOk(s.ledger, cfg.queueMax)
    ensures LedgerOk(Next(s, cfg, step).ledger, cfg.queueMax)
  {
    match step
    case Submit(msgid, options) =>
      SubmitKeepsQueues(s.ledger, cfg.queueMax, msgid, options);
      SubmitConserves(s.ledger, cfg.queueMax, msgid, options);
      SubmitPurges(s.ledger, cfg.queueMax, msgid, options);
    case Withdraw(msgid, priority) => WithdrawKeepsLedger(s.ledger, cfg.queueMax, msgid, priority);
    case Check => CheckKeepsLedger(s, cfg.queueMax);
    case _ =>
  }

  lemma NextKeepsWakeup(s: Sched, cfg: Config, step: Step)
    requires NoLostWakeup(s)
    ensures NoLostWakeup(Next(s, cfg, step))
  {
    if step.Withdraw? && IsEmpty(s.ledger.queues) {
      var queue := Pick(s.ledger.queues, step.priority);
      assert |CancelIn(queue, step.msgid)| <= |queue|;
    }
  }

  lemma NextKeepsPace(s: Sched, cfg: Config, step: Step)
    requires Paced(s, cfg.pauseMsec)
    ensures Paced(Next(s, cfg, step), cfg.pauseMsec)
  {
  }

  lemma NextKeepsInv(s: Sched, cfg: Config, step: Step)
    requires Inv(s, cfg)
    ensures Inv(Next(s, cfg, step), cfg)
  {
    NextKeepsLedger(s, cfg, step);
    NextKeepsWakeup(s, cfg, step);
    NextKeepsPace(s, cfg, step);
  }

  lemma {:induction false} RunKeepsInv(s: Sched, cfg: Config, steps: seq<Step>)
    requires Inv(s, cfg)
    ensures Inv(Run(s, cfg, steps), cfg)
  {
    if steps != [] {
      RunKeepsInv(s, cfg, steps[..|steps| - 1]);
      NextKeepsInv(Run(s, cfg, steps[..|steps| - 1]), cfg, steps[|steps| - 1]);
    }
  }

  /** Every reachable state satisfies the invariant. */
  lemma ReachableInv(cfg: Config, steps: seq<Step>)
    ensures Inv(Run(INIT, cfg, steps), cfg)
  {
    assert Inv(INIT, cfg);
    RunKeepsInv(INIT, cfg, steps);
  }
}
