/** Message ids and the options a client sends with a message. */
module LinkTypes {
  import opened Prelude

  datatype MsgId = MsgId(base: u64, frag: Option<u32>)

  datatype Priority = Normal | High
  datatype Policy = Plainly | Classy(className: string, level: u32)
  datatype OutOptions = OutOptions(priority: Priority, policy: Policy)
  datatype Action = Queue | Dup | Preempt | Limit
}

/** The two outgoing queues. Frames are never looked at, so their type is left open. */
module OutgoingQueues {
  import opened Prelude
  import opened LinkTypes

  datatype Entry<F> = Entry(msgid: MsgId, policy: Policy, frame: F)
  datatype Queues<F> = Queues(normal: seq<Entry<F>>, high: seq<Entry<F>>)

  predicate SameClass(p: Policy, q: Policy) {
    p.Classy? && q.Classy? && p.className == q.className
  }

  predicate Below(p: Policy, q: Policy) {
    SameClass(p, q) && p.level < q.level
  }

  predicate HasId<F>(queue: seq<Entry<F>>, msgid: MsgId) {
    exists i :: 0 <= i < |queue| && queue[i].msgid == msgid
  }

  predicate HasAbove<F>(queue: seq<Entry<F>>, policy: Policy) {
    exists i :: 0 <= i < |queue| && Below(policy, queue[i].policy)
  }

  function NotBelow<F(!new)>(policy: Policy): Entry<F> -> bool {
    (e: Entry<F>) => !Below(e.policy, policy)
  }

  function NotId<F(!new)>(msgid: MsgId): Entry<F> -> bool {
    (e: Entry<F>) => e.msgid != msgid
  }

  /** One queue after an attempt to enqueue, and what became of the attempt. */
  function EnqueueInto<F(!new)>(queue: seq<Entry<F>>, max: nat, e: Entry<F>): (seq<Entry<F>>, Action) {
    if |queue| > max then (queue, Limit)
    else if HasId(queue, e.msgid) then (queue, Dup)
    else if HasAbove(queue, e.policy) then (queue, Preempt)
    else (Retain(queue, NotBelow(e.policy)) + [e], Queue)
  }

  function CancelIn<F(!new)>(queue: seq<Entry<F>>, msgid: MsgId): seq<Entry<F>> {
    Retain(queue, NotId(msgid))
  }

  function Pick<F>(q: Queues<F>, priority: Priority): seq<Entry<F>> {
    match priority case Normal => q.normal case High => q.high
  }

  function Put<F>(q: Queues<F>, priority: Priority, queue: seq<Entry<F>>): Queues<F> {
    match priority case Normal => q.(normal := queue) case High => q.(high := queue)
  }

  predicate IsEmpty<F>(q: Queues<F>) {
    |q.normal| == 0 && |q.high| == 0
  }

  /** The next frame for the radio: the front of the high queue, or else of the normal queue. */
  function PopFront<F>(q: Queues<F>): (Queues<F>, Option<Entry<F>>) {
    if q.high != [] then (q.(high := q.high[1..]), Some(q.high[0]))
    else if q.normal != [] then (q.(normal := q.normal[1..]), Some(q.normal[0]))
    else (q, None)
  }

  function AfterEnqueue<F(!new)>(
      q: Queues<F>, max: nat, msgid: MsgId, frame: F, options: OutOptions): (Queues<F>, Action)
  {
    var (queue, action) := EnqueueInto(Pick(q, options.priority), max, Entry(msgid, options.policy, frame));
    (Put(q, options.priority, queue), action)
  }

  function AfterCancel<F(!new)>(q: Queues<F>, msgid: MsgId, priority: Priority): Queues<F> {
    Put(q, priority, CancelIn(Pick(q, priority), msgid))
  }

  // ---- what always holds of a queue ----

  ghost function DifferentIds<F(!new)>(): (Entry<F>, Entry<F>) -> bool {
    (a: Entry<F>, b: Entry<F>) => a.msgid != b.msgid
  }

  ghost function SameLevel<F(!new)>(): (Entry<F>, Entry<F>) -> bool {
    (a: Entry<F>, b: Entry<F>) => SameClass(a.policy, b.policy) ==> a.policy.level == b.policy.level
  }

  /** Ids are distinct, each class has one level, and the length is at most one over the configured maximum. */
  ghost predicate QueueInv<F(!new)>(queue: seq<Entry<F>>, max: nat) {
    Pairwise(queue, DifferentIds()) && Pairwise(queue, SameLevel()) && |queue| <= max + 1
  }

  /**
    A frame is refused for a full queue first, then for its own id, then for a queued frame of its
    class above its level, and else accepted; an accepted one joins at the back and takes out exactly the frames of its class
    below its level, and the others keep their order.
   */
  lemma EnqueueOutcome<F(!new)>(queue: seq<Entry<F>>, max: nat, e: Entry<F>, rel: (Entry<F>, Entry<F>) -> bool)
    requires Pairwise(queue, rel)
    ensures var (queue', action) := EnqueueInto(queue, max, e);
      && (action == Queue <==>
        |queue| <= max && forall x :: x in queue ==> x.msgid != e.msgid && !Below(e.policy, x.policy))
      && (action == Limit <==> |queue| > max)
      && (action == Dup <==> |queue| <= max && exists x :: x in queue && x.msgid == e.msgid)
      && (action != Queue ==> queue' == queue)
      && (action == Queue ==>
        && queue' != [] && queue'[|queue'| - 1] == e
        && (forall x :: x in queue'[..|queue'| - 1] <==> x in queue && !Below(x.policy, e.policy))
        && Pairwise(queue'[..|queue'| - 1], rel))
  {
    RetainPairwise(queue, NotBelow(e.policy), rel);
    var (queue', action) := EnqueueInto(queue, max, e);
    if action == Queue {
      assert queue'[..|queue'| - 1] == Retain(queue, NotBelow(e.policy));
      forall x | x in queue ensures x.msgid != e.msgid && !Below(e.policy, x.policy) {
        var i :| 0 <= i < |queue| && queue[i] == x;
      }
    } else if |queue| <= max {
      var i :| 0 <= i < |queue| && (queue[i].msgid == e.msgid || Below(e.policy, queue[i].policy));
      assert queue[i] in queue;
    }
    if exists x :: x in queue && x.msgid == e.msgid {
      var x :| x in queue && x.msgid == e.msgid;
      var i :| 0 <= i < |queue| && queue[i] == x;
      assert HasId(queue, e.msgid);
    }
    if HasId(queue, e.msgid) {
      var i :| 0 <= i < |queue| && queue[i].msgid == e.msgid;
      assert queue[i] in queue;
    }
  }

  /** Frames without a class, or of other classes, are neither displaced nor in the way. */
  lemma OtherClassesUnaffected<F(!new)>(queue: seq<Entry<F>>, max: nat, e: Entry<F>)
    requires forall x :: x in queue ==> x.policy.Plainly? || e.policy.Plainly? || x.policy.className != e.policy.className
    ensures EnqueueInto(queue, max, e).0 ==
      if |queue| <= max && forall x :: x in queue ==> x.msgid != e.msgid then queue + [e] else queue
  {
    EnqueueOutcome(queue, max, e, (a: Entry<F>, b: Entry<F>) => true);
    RetainAll(queue, NotBelow(e.policy));
  }

  lemma EnqueueKeepsInv<F(!new)>(queue: seq<Entry<F>>, max: nat, e: Entry<F>)
    requires QueueInv(queue, max)
    ensures QueueInv(EnqueueInto(queue, max, e).0, max)
  {
    var kept := Retain(queue, NotBelow(e.policy));
    RetainPairwise(queue, NotBelow(e.policy), DifferentIds<F>());
    RetainPairwise(queue, NotBelow(e.policy), SameLevel<F>());
    if EnqueueInto(queue, max, e).1 == Queue {
      forall i | 0 <= i < |kept|
        ensures DifferentIds<F>()(kept[i], e) && SameLevel<F>()(kept[i], e)
      {
        assert kept[i] in kept;
        var j :| 0 <= j < |queue| && queue[j] == kept[i];
        assert !Below(e.policy, queue[j].policy);
      }
    }
  }

  /** An attempt leaves a queue within its maximum exactly when there was room, or it is refused or makes room itself. */
  lemma WithinMaxIff<F(!new)>(queue: seq<Entry<F>>, max: nat, e: Entry<F>)
    requires |queue| <= max
    ensures |EnqueueInto(queue, max, e).0| <= max <==>
      || |queue| < max || HasId(queue, e.msgid) || HasAbove(queue, e.policy)
      || exists x :: x in queue && Below(x.policy, e.policy)
  {
    RetainSize(queue, NotBelow(e.policy));
  }

  lemma {:induction false} RetainSize<T(!new)>(s: seq<T>, keep: T -> bool)
    ensures |Retain(s, keep)| == |s| <==> forall x :: x in s ==> keep(x)
  {
    if s != [] {
      RetainSize(s[1..], keep);
    }
  }

  lemma CancelKeepsInv<F(!new)>(queue: seq<Entry<F>>, max: nat, msgid: MsgId)
    requires QueueInv(queue, max)
    ensures QueueInv(CancelIn(queue, msgid), max)
  {
    RetainPairwise(queue, NotId(msgid), DifferentIds<F>());
    RetainPairwise(queue, NotId(msgid), SameLevel<F>());
  }

  /** Level of a class in a queue, if the class is there. */
  ghost predicate AtLevel<F>(queue: seq<Entry<F>>, className: string, level: u32) {
    exists i :: 0 <= i < |queue| && queue[i].policy == Classy(className, level)
  }

  lemma OneLevelEach<F(!new)>(queue: seq<Entry<F>>, max: nat, className: string, a: u32, b: u32)
    requires QueueInv(queue, max) && AtLevel(queue, className, a) && AtLevel(queue, className, b)
    ensures a == b
  {
    var i :| 0 <= i < |queue| && queue[i].policy == Classy(className, a);
    var j :| 0 <= j < |queue| && queue[j].policy == Classy(className, b);
    if i < j {
      assert SameLevel<F>()(queue[i], queue[j]);
    } else if j < i {
      assert SameLevel<F>()(queue[j], queue[i]);
    }
  }

  /** Accepting a frame never lowers the level at which a class is queued. */
  lemma EnqueueRaisesLevel<F(!new)>(queue: seq<Entry<F>>, max: nat, e: Entry<F>, className: string, a: u32, b: u32)
    requires QueueInv(queue, max) && AtLevel(queue, className, a)
    requires AtLevel(EnqueueInto(queue, max, e).0, className, b)
    ensures a <= b
  {
    var queue' := EnqueueInto(queue, max, e).0;
    var j :| 0 <= j < |queue'| && queue'[j].policy == Classy(className, b);
    var i :| 0 <= i < |queue| && queue[i].policy == Classy(className, a);
    if queue' == queue {
      OneLevelEach(queue, max, className, a, b);
    } else if j < |queue'| - 1 {
      var kept := Retain(queue, NotBelow(e.policy));
      assert kept[j] in kept;
      var m :| 0 <= m < |queue| && queue[m] == kept[j];
      OneLevelEach(queue, max, className, a, b);
    } else {
      assert !Below(e.policy, queue[i].policy);
    }
  }

  /** A frame is displaced only by one of its own class at a strictly higher level; nothing displaces at level 0. */
  lemma {:induction false} OnlyLowerIsDisplaced<F(!new)>(queue: seq<Entry<F>>, max: nat, e: Entry<F>, x: Entry<F>)
    requires x in queue
    ensures x in EnqueueInto(queue, max, e).0 || (Below(x.policy, e.policy) && EnqueueInto(queue, max, e).1 == Queue)
    ensures e.policy.Classy? && e.policy.level == 0 ==> queue <= EnqueueInto(queue, max, e).0
  {
    if e.policy.Classy? && e.policy.level == 0 {
      RetainAll(queue, NotBelow(e.policy));
    }
  }

  lemma {:induction false} RetainAll<T(!new)>(s: seq<T>, keep: T -> bool)
    requires forall x :: x in s ==> keep(x)
    ensures Retain(s, keep) == s
  {
    if s != [] {
      RetainAll(s[1..], keep);
    }
  }

  // ---- the queues as an object ----

  class Outgoing<F(!new)> {
    var normal: seq<Entry<F>>
    var high: seq<Entry<F>>
    /** Wakeups sent and not yet received; absent until the regulator is started. */
    var notify: Option<nat>
    const queueMax: nat
    const txRateLimitMsec: nat

    constructor (queueMax: nat, txRateLimitMsec: nat)
      ensures this.queueMax == queueMax && this.txRateLimitMsec == txRateLimitMsec
      ensures Valid() && State() == Queues([], []) && notify == None
    {
      this.queueMax, this.txRateLimitMsec := queueMax, txRateLimitMsec;
      normal, high, notify := [], [], None;
    }

    function State(): Queues<F>
      reads this
    {
      Queues(normal, high)
    }

    ghost predicate Valid()
      reads this
    {
      QueueInv(normal, queueMax) && QueueInv(high, queueMax)
    }

    /** A wakeup is sent through a channel that exists only once the regulator has been started. */
    predicate CanEnqueue()
      reads this
    {
      notify.Some? || !IsEmpty(State())
    }

    method QLen() returns (r: (nat, nat))
      requires Valid()
      ensures r == (|high|, |normal|)
      ensures r.0 <= queueMax + 1 && r.1 <= queueMax + 1
    {
      r := (|high|, |normal|);
    }

    method Enqueue(msgid: MsgId, frame: F, options: OutOptions) returns (action: Action)
      requires Valid() && CanEnqueue()
      modifies this
      ensures Valid() && CanEnqueue()
      ensures (State(), action) == AfterEnqueue(old(State()), queueMax, msgid, frame, options)
      ensures notify == if IsEmpty(old(State())) then Some(old(notify).value + 1) else old(notify)
    {
      var needWakeup := |normal| == 0 && |high| == 0;
      var queue := match options.priority case Normal => normal case High => high;
      EnqueueKeepsInv(queue, queueMax, Entry(msgid, options.policy, frame));
      if |queue| > queueMax {
        return Limit;
      }
      if HasId(queue, msgid) {
        return Dup;
      }
      if options.policy.Classy? {
        if HasAbove(queue, options.policy) {
          return Preempt;
        }
        queue := Retain(queue, NotBelow(options.policy));
      } else {
        RetainAll(queue, NotBelow(options.policy));
      }
      queue := queue + [Entry(msgid, options.policy, frame)];
      match options.priority {
        case Normal => normal := queue;
        case High => high := queue;
      }
      if needWakeup {
        notify := Some(notify.value + 1);
      }
      return Queue;
    }

    method Cancel(msgid: MsgId, priority: Priority)
      requires Valid()
      modifies this`normal, this`high
      ensures Valid()
      ensures State() == AfterCancel(old(State()), msgid, priority)
    {
      match priority {
        case Normal =>
          CancelKeepsInv(normal, queueMax, msgid);
          normal := Retain(normal, NotId(msgid));
        case High =>
          CancelKeepsInv(high, queueMax, msgid);
          high := Retain(high, NotId(msgid));
      }
    }

    method StartRegulator()
      requires Valid()
      modifies this`notify
      ensures Valid() && CanEnqueue() && notify == Some(0)
    {
      notify := Some(0);
    }

    /** What the regulator does each time it holds the queues. */
    method TakeNext() returns (next: Option<Entry<F>>)
      requires Valid()
      modifies this`normal, this`high
      ensures Valid()
      ensures (State(), next) == PopFront(old(State()))
    {
      if high != [] {
        next, high := Some(high[0]), high[1..];
      } else if normal != [] {
        next, normal := Some(normal[0]), normal[1..];
      } else {
        next := None;
      }
    }
  }
}
