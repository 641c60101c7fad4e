/**
  What the link does with each input, as values: the fragment cache afterwards, the message
  handed to the client, and the work left to do on the outgoing queues, in order. A handler
  holds the link lock until that work is done, but the regulator may take frames in between.
 */
module LinkProtocol {
  import opened Prelude
  import opened LinkTypes
  import opened OutgoingQueues
  import opened FragCache
  import opened Fragmentation
  import opened Policies

  datatype Payload = Complete(msg: LinkMsg) | Fragment(frag: LinkFrag) | Need(missing: seq<LinkMissing>)
  datatype LinkFrame = LinkFrame(magic: u32, version: u32, payload: Option<Payload>)

  const LINK_MAGIC: u32 := 0x48534F4E
  const LINK_VERSION: u32 := 1

  function Framed(payload: Payload): LinkFrame {
    LinkFrame(LINK_MAGIC, LINK_VERSION, Some(payload))
  }

  datatype QueueOp =
    | EnqueueOp(msgid: MsgId, frame: LinkFrame, options: OutOptions)
    | CancelOp(msgid: MsgId, priority: Priority)

  function ApplyOp(q: Queues<LinkFrame>, max: nat, op: QueueOp): Queues<LinkFrame> {
    match op
    case EnqueueOp(msgid, frame, options) => AfterEnqueue(q, max, msgid, frame, options).0
    case CancelOp(msgid, priority) => AfterCancel(q, msgid, priority)
  }

  function ApplyOps(q: Queues<LinkFrame>, max: nat, ops: seq<QueueOp>): Queues<LinkFrame> {
    if ops == [] then q else ApplyOp(ApplyOps(q, max, ops[..|ops| - 1]), max, ops[|ops| - 1])
  }

  lemma ApplyOneMore(q: Queues<LinkFrame>, max: nat, ops: seq<QueueOp>, op: QueueOp)
    ensures ApplyOps(q, max, ops + [op]) == ApplyOp(ApplyOps(q, max, ops), max, op)
  {
    assert (ops + [op])[..|ops|] == ops;
  }

  const RETRY_OPTIONS := OutOptions(High, Plainly)

  // ---- sending ----

  /** The longest payload whose chunks a 32-bit count can number. */
  predicate Sendable(payload: seq<byte>) {
    |payload| <= LINK_FRAG_THRESH * 0xFFFF_FFFF
  }

  /** Fragment i as first sent: not rotated. */
  function OriginalFrag(id: u64, payload: seq<byte>, i: nat): LinkFrag
    requires Sendable(payload) && i < NumFrag(payload)
  {
    LinkFrag(id, NumFrag(payload), i, 0, Chunk(payload, i))
  }

  lemma OriginalIsCopy(id: u64, payload: seq<byte>, i: nat)
    requires Sendable(payload) && i < NumFrag(payload)
    ensures CopyOf(OriginalFrag(id, payload, i), id, payload)
  {
    assert Plain(OriginalFrag(id, payload, i)) == Chunk(payload, i);
  }

  /** The cache after the sender has put its own first n fragments into it. */
  function KeepOwn(c: Cache, id: u64, payload: seq<byte>, n: nat, now: nat): Cache
    requires Sendable(payload) && n <= NumFrag(payload)
  {
    if n == 0 then c else Add(KeepOwn(c, id, payload, n - 1, now), OriginalFrag(id, payload, n - 1), false, now).0
  }

  function SendOp(id: u64, payload: seq<byte>, i: nat, options: OutOptions): QueueOp
    requires Sendable(payload) && i < NumFrag(payload)
  {
    EnqueueOp(MsgId(id, Some(i)), Framed(Fragment(OriginalFrag(id, payload, i))), options)
  }

  function SendOps(id: u64, payload: seq<byte>, n: nat, options: OutOptions): (ops: seq<QueueOp>)
    requires Sendable(payload) && n <= NumFrag(payload)
    ensures |ops| == n
  {
    seq(n, i requires 0 <= i < n => SendOp(id, payload, i, options))
  }

  lemma SendOneMore(q: Queues<LinkFrame>, max: nat, id: u64, payload: seq<byte>, i: nat, options: OutOptions)
    requires Sendable(payload) && i < NumFrag(payload)
    ensures ApplyOps(q, max, SendOps(id, payload, i + 1, options))
      == ApplyOp(ApplyOps(q, max, SendOps(id, payload, i, options)), max, SendOp(id, payload, i, options))
  {
    assert SendOps(id, payload, i + 1, options) == SendOps(id, payload, i, options) + [SendOp(id, payload, i, options)];
    ApplyOneMore(q, max, SendOps(id, payload, i, options), SendOp(id, payload, i, options));
  }

  /** Sending a client's payload: fragments above the threshold, one complete message otherwise. */
  function SendWork(c: Cache, msgid: MsgId, payload: seq<byte>, options: OutOptions, now: nat): (Cache, seq<QueueOp>)
    requires Sendable(payload)
  {
    if |payload| > LINK_FRAG_THRESH then
      (KeepOwn(c, msgid.base, payload, NumFrag(payload), now),
       SendOps(msgid.base, payload, NumFrag(payload), options))
    else
      (c, [EnqueueOp(msgid, Framed(Complete(LinkMsg(msgid.base, payload))), options)])
  }

  // ---- what a send leaves in the cache and the queue ----

  lemma {:induction false} KeepOwnFills(c: Cache, id: u64, payload: seq<byte>, n: nat, now: nat)
    requires Sendable(payload) && 0 < n <= NumFrag(payload)
    ensures var c' := KeepOwn(c, id, payload, n, now);
      && id in c'
      && |c'[id].frags| == (if id in c then |c[id].frags| else NumFrag(payload))
      && (forall i :: 0 <= i < n && i < |c'[id].frags| ==> c'[id].frags[i].data == Chunk(payload, i))
      && c' - {id} == c - {id}
  {
    if n > 1 {
      KeepOwnFills(c, id, payload, n - 1, now);
    }
    OriginalIsCopy(id, payload, n - 1);
  }

  /** The sender ends up holding every chunk of its message, unless it knew the id with another number of slots. */
  lemma OwnChunksAreHeld(c: Cache, id: u64, payload: seq<byte>, now: nat)
    requires Fragmented(payload)
    ensures var c' := KeepOwn(c, id, payload, NumFrag(payload), now);
      && id in c' && c' - {id} == c - {id}
      && (Slots(c'[id].frags) == Chunks(payload) <==> (id in c ==> |c[id].frags| == NumFrag(payload)))
  {
    KeepOwnFills(c, id, payload, NumFrag(payload), now);
  }

  function EntryFrom(op: QueueOp): Entry<LinkFrame>
    requires op.EnqueueOp?
  {
    Entry(op.msgid, op.options.policy, op.frame)
  }

  function EntriesFrom(ops: seq<QueueOp>): (r: seq<Entry<LinkFrame>>)
    requires forall i :: 0 <= i < |ops| ==> ops[i].EnqueueOp?
    ensures |r| == |ops|
  {
    seq(|ops|, i requires 0 <= i < |ops| => EntryFrom(ops[i]))
  }

  /** Frames to queue under different ids and the same options. */
  ghost predicate Alike(ops: seq<QueueOp>, options: OutOptions) {
    && (forall i :: 0 <= i < |ops| ==> ops[i].EnqueueOp? && ops[i].options == options)
    && (forall i, j :: 0 <= i < j < |ops| ==> ops[i].msgid != ops[j].msgid)
  }

  /** No queued frame has one of these ids, and none is in the same class at another level. */
  ghost predicate Unrelated(queue: seq<Entry<LinkFrame>>, ops: seq<QueueOp>, policy: Policy) {
    forall e :: e in queue ==>
      && !Below(e.policy, policy) && !Below(policy, e.policy)
      && forall i :: 0 <= i < |ops| && ops[i].EnqueueOp? ==> e.msgid != ops[i].msgid
  }

  // ---- any queue ----

  /** What the first accepted frame of this policy leaves of a queue. */
  function LeftBy(queue: seq<Entry<LinkFrame>>, policy: Policy): seq<Entry<LinkFrame>> {
    Retain(queue, NotBelow(policy))
  }

  /** The frames that are no duplicates: of the whole queue while none has joined, of what is left of it from then on. */
  function Joining(ops: seq<QueueOp>, queue: seq<Entry<LinkFrame>>, policy: Policy): (r: seq<QueueOp>)
    ensures forall op :: op in r ==> op in ops
    ensures forall op :: op in r ==> !HasId(LeftBy(queue, policy), op.msgid)
  {
    if ops == [] then []
    else
      var before, op := Joining(ops[..|ops| - 1], queue, policy), ops[|ops| - 1];
      LeftHasFewer(queue, policy, op.msgid);
      if HasId(if before == [] then queue else LeftBy(queue, policy), op.msgid) then before else before + [op]
  }

  lemma LeftHasFewer(queue: seq<Entry<LinkFrame>>, policy: Policy, msgid: MsgId)
    ensures HasId(LeftBy(queue, policy), msgid) ==> HasId(queue, msgid)
  {
    var kept := LeftBy(queue, policy);
    if i :| 0 <= i < |kept| && kept[i].msgid == msgid {
      assert kept[i] in queue;
      var j :| 0 <= j < |queue| && queue[j] == kept[i];
    }
  }

  function UpTo(queue: seq<Entry<LinkFrame>>, n: nat): seq<Entry<LinkFrame>> {
    if |queue| <= n then queue else queue[..n]
  }

  /** The queue after these frames have been offered to it one after the other. */
  function Offered(queue: seq<Entry<LinkFrame>>, max: nat, ops: seq<QueueOp>, policy: Policy): seq<Entry<LinkFrame>>
    requires forall i :: 0 <= i < |ops| ==> ops[i].EnqueueOp?
  {
    var joining := Joining(ops, queue, policy);
    assert forall i :: 0 <= i < |joining| ==> joining[i] in ops;
    if |queue| > max || HasAbove(queue, policy) || joining == [] then queue
    else UpTo(LeftBy(queue, policy) + EntriesFrom(joining), max + 1)
  }

  /** Nothing in the queue is above or below this policy. */
  predicate Level(queue: seq<Entry<LinkFrame>>, policy: Policy) {
    forall i :: 0 <= i < |queue| ==> !Below(queue[i].policy, policy) && !Below(policy, queue[i].policy)
  }

  lemma LevelRefusesNone(queue: seq<Entry<LinkFrame>>, max: nat, e: Entry<LinkFrame>)
    requires Level(queue, e.policy)
    ensures EnqueueInto(queue, max, e).0 == if |queue| <= max && !HasId(queue, e.msgid) then queue + [e] else queue
  {
    RetainAll(queue, NotBelow(e.policy));
  }

  lemma LeftIsLevel(queue: seq<Entry<LinkFrame>>, policy: Policy)
    requires !HasAbove(queue, policy)
    ensures Level(LeftBy(queue, policy), policy)
  {
    var kept := LeftBy(queue, policy);
    forall i | 0 <= i < |kept| ensures !Below(kept[i].policy, policy) && !Below(policy, kept[i].policy) {
      assert kept[i] in kept;
      var j :| 0 <= j < |queue| && queue[j] == kept[i];
    }
  }

  /** Frames under different ids and the same options, offered one after the other to any queue whatever. */
  lemma {:induction false} AlikeOffered(q: Queues<LinkFrame>, max: nat, ops: seq<QueueOp>, options: OutOptions)
    requires Alike(ops, options)
    ensures ApplyOps(q, max, ops)
      == Put(q, options.priority, Offered(Pick(q, options.priority), max, ops, options.policy))
  {
    if ops != [] {
      AlikeOffered(q, max, ops[..|ops| - 1], options);
      OfferedOneMore(Pick(q, options.priority), max, ops, options);
    }
  }

  lemma OfferedOneMore(queue: seq<Entry<LinkFrame>>, max: nat, ops: seq<QueueOp>, options: OutOptions)
    requires Alike(ops, options) && ops != []
    ensures Offered(queue, max, ops, options.policy)
      == EnqueueInto(Offered(queue, max, ops[..|ops| - 1], options.policy), max, EntryFrom(ops[|ops| - 1])).0
  {
    var fewer, op, policy := ops[..|ops| - 1], ops[|ops| - 1], options.policy;
    var joining := Joining(fewer, queue, policy);
    if |queue| <= max && !HasAbove(queue, policy) && joining != [] {
      JoinsLeft(queue, max, joining, op, policy);
    } else if |queue| <= max && !HasAbove(queue, policy) && !HasId(queue, op.msgid) {
      assert Joining(ops, queue, policy) == [op];
      assert EntriesFrom([op]) == [EntryFrom(op)];
    }
  }

  lemma JoinsLeft(queue: seq<Entry<LinkFrame>>, max: nat, joining: seq<QueueOp>, op: QueueOp, policy: Policy)
    requires |queue| <= max && !HasAbove(queue, policy) && joining != []
    requires op.EnqueueOp? && op.options.policy == policy
    requires forall o :: o in joining ==> o.EnqueueOp? && o.options.policy == policy && o.msgid != op.msgid
    ensures var kept := LeftBy(queue, policy);
      EnqueueInto(UpTo(kept + EntriesFrom(joining), max + 1), max, EntryFrom(op)).0
        == UpTo(kept + EntriesFrom(if HasId(kept, op.msgid) then joining else joining + [op]), max + 1)
  {
    var kept := LeftBy(queue, policy);
    var before := UpTo(kept + EntriesFrom(joining), max + 1);
    LeftIsLevel(queue, policy);
    forall i | 0 <= i < |before| ensures !Below(before[i].policy, policy) && !Below(policy, before[i].policy) {
      assert i >= |kept| ==> before[i] == EntryFrom(joining[i - |kept|]);
    }
    LevelRefusesNone(before, max, EntryFrom(op));
    assert EntriesFrom(joining + [op]) == EntriesFrom(joining) + [EntryFrom(op)];
    if |before| <= max {
      SameIds(kept, joining, op);
    }
  }

  lemma SameIds(kept: seq<Entry<LinkFrame>>, joining: seq<QueueOp>, op: QueueOp)
    requires forall o :: o in joining ==> o.EnqueueOp? && o.msgid != op.msgid
    ensures HasId(kept + EntriesFrom(joining), op.msgid) <==> HasId(kept, op.msgid)
  {
    var all := kept + EntriesFrom(joining);
    if i :| 0 <= i < |kept| && kept[i].msgid == op.msgid {
      assert all[i].msgid == op.msgid;
    }
    forall i | |kept| <= i < |all| ensures all[i].msgid != op.msgid {
      assert joining[i - |kept|] in joining;
    }
  }

  /** Each of these frames is accepted when its turn comes. */
  predicate AllAccepted(q: Queues<LinkFrame>, max: nat, ops: seq<QueueOp>, priority: Priority)
    requires forall i :: 0 <= i < |ops| ==> ops[i].EnqueueOp?
  {
    if ops == [] then true
    else
      var fewer, last := ops[..|ops| - 1], ops[|ops| - 1];
      && AllAccepted(q, max, fewer, priority)
      && EnqueueInto(Pick(ApplyOps(q, max, fewer), priority), max, EntryFrom(last)).1 == Queue
  }

  /** Something a client could check before it sends: the queue takes all of these frames. */
  predicate TakesAll(queue: seq<Entry<LinkFrame>>, max: nat, ops: seq<QueueOp>, policy: Policy)
    requires ops != []
  {
    && |queue| <= max && !HasAbove(queue, policy) && !HasId(queue, ops[0].msgid)
    && (forall i :: 0 <= i < |ops| ==> !HasId(LeftBy(queue, policy), ops[i].msgid))
    && |LeftBy(queue, policy)| + |ops| <= max + 1
  }

  /** All of them are accepted exactly then, and they then stand in order behind what the first one left. */
  lemma {:induction false} AllAcceptedIff(q: Queues<LinkFrame>, max: nat, ops: seq<QueueOp>, options: OutOptions)
    requires Alike(ops, options) && ops != []
    ensures var queue := Pick(q, options.priority);
      && (AllAccepted(q, max, ops, options.priority) <==> TakesAll(queue, max, ops, options.policy))
      && (TakesAll(queue, max, ops, options.policy) ==>
        Pick(ApplyOps(q, max, ops), options.priority) == LeftBy(queue, options.policy) + EntriesFrom(ops))
  {
    var n, queue, policy := |ops| - 1, Pick(q, options.priority), options.policy;
    if n == 0 {
      FirstAccepted(q, max, ops, options);
    } else {
      AllAcceptedIff(q, max, ops[..n], options);
      TakesStep(queue, max, ops, policy);
      if TakesAll(queue, max, ops[..n], policy) {
        LastAccepted(queue, max, ops, options);
      }
    }
  }

  lemma FirstAccepted(q: Queues<LinkFrame>, max: nat, ops: seq<QueueOp>, options: OutOptions)
    requires Alike(ops, options) && |ops| == 1
    ensures var queue := Pick(q, options.priority);
      && (AllAccepted(q, max, ops, options.priority) <==> TakesAll(queue, max, ops, options.policy))
      && (TakesAll(queue, max, ops, options.policy) ==>
        Pick(ApplyOps(q, max, ops), options.priority) == LeftBy(queue, options.policy) + EntriesFrom(ops))
  {
    assert ops[..0] == [];
    LeftHasFewer(Pick(q, options.priority), options.policy, ops[0].msgid);
    assert EntriesFrom(ops) == [EntryFrom(ops[0])];
  }

  lemma TakesStep(queue: seq<Entry<LinkFrame>>, max: nat, ops: seq<QueueOp>, policy: Policy)
    requires |ops| > 1
    ensures var fewer, op := ops[..|ops| - 1], ops[|ops| - 1];
      TakesAll(queue, max, ops, policy) <==>
        && TakesAll(queue, max, fewer, policy)
        && !HasId(LeftBy(queue, policy), op.msgid) && |LeftBy(queue, policy)| + |ops| <= max + 1
  {
    var fewer := ops[..|ops| - 1];
    if TakesAll(queue, max, ops, policy) {
      assert forall i :: 0 <= i < |fewer| ==> fewer[i] == ops[i];
    }
    if TakesAll(queue, max, fewer, policy) {
      assert forall i :: 0 <= i < |fewer| ==> !HasId(LeftBy(queue, policy), fewer[i].msgid);
    }
  }

  lemma LastAccepted(queue: seq<Entry<LinkFrame>>, max: nat, ops: seq<QueueOp>, options: OutOptions)
    requires Alike(ops, options) && |ops| > 1 && TakesAll(queue, max, ops[..|ops| - 1], options.policy)
    ensures var kept, fewer, op := LeftBy(queue, options.policy), ops[..|ops| - 1], ops[|ops| - 1];
      var (after, action) := EnqueueInto(kept + EntriesFrom(fewer), max, EntryFrom(op));
      && (action == Queue <==> !HasId(kept, op.msgid) && |kept| + |ops| <= max + 1)
      && (action == Queue ==> after == kept + EntriesFrom(ops))
  {
    var kept, fewer, op := LeftBy(queue, options.policy), ops[..|ops| - 1], ops[|ops| - 1];
    var before := kept + EntriesFrom(fewer);
    LeftIsLevel(queue, options.policy);
    forall i | 0 <= i < |before|
      ensures !Below(before[i].policy, options.policy) && !Below(options.policy, before[i].policy)
    {
      assert i >= |kept| ==> before[i] == EntryFrom(fewer[i - |kept|]);
    }
    LevelRefusesNone(before, max, EntryFrom(op));
    forall o | o in fewer ensures o.EnqueueOp? && o.msgid != op.msgid {
      var i :| 0 <= i < |fewer| && ops[i] == o;
    }
    SameIds(kept, fewer, op);
    assert EntriesFrom(ops) == EntriesFrom(fewer) + [EntryFrom(op)];
  }

  /** While a frame of the same class above this level is queued, none of them is accepted. */
  lemma AllPreempted(q: Queues<LinkFrame>, max: nat, ops: seq<QueueOp>, options: OutOptions)
    requires Alike(ops, options) && HasAbove(Pick(q, options.priority), options.policy)
    ensures ApplyOps(q, max, ops) == q
  {
    AlikeOffered(q, max, ops, options);
  }

  /** How many of n frames a queue of this length takes up. */
  function Fitting(n: nat, length: nat, max: nat): nat
    requires length <= max + 1
  {
    if n <= max + 1 - length then n else max + 1 - length
  }

  /** Frames queued one after the other join in order, until the queue is full; the rest are refused. */
  lemma {:induction false} AlikeFill(q: Queues<LinkFrame>, max: nat, ops: seq<QueueOp>, options: OutOptions)
    requires Alike(ops, options) && |Pick(q, options.priority)| <= max + 1
    requires Unrelated(Pick(q, options.priority), ops, options.policy)
    ensures var queue := Pick(q, options.priority);
      ApplyOps(q, max, ops) == Put(q, options.priority, queue + EntriesFrom(ops)[..Fitting(|ops|, |queue|, max)])
  {
    var queue := Pick(q, options.priority);
    if ops == [] {
      assert queue + EntriesFrom(ops)[..0] == queue;
    } else {
      var n := |ops| - 1;
      AlikeFill(q, max, ops[..n], options);
      var m := Fitting(n, |queue|, max);
      assert EntriesFrom(ops[..n])[..m] == EntriesFrom(ops)[..m];
      AlikeStep(queue, max, ops, m, options);
    }
  }

  lemma AlikeStep(queue: seq<Entry<LinkFrame>>, max: nat, ops: seq<QueueOp>, m: nat, options: OutOptions)
    requires Alike(ops, options) && Unrelated(queue, ops, options.policy) && |queue| <= max + 1
    requires ops != [] && m == Fitting(|ops| - 1, |queue|, max)
    ensures EnqueueInto(queue + EntriesFrom(ops)[..m], max, EntryFrom(ops[|ops| - 1])).0
      == queue + EntriesFrom(ops)[..Fitting(|ops|, |queue|, max)]
  {
    var before, op := queue + EntriesFrom(ops)[..m], ops[|ops| - 1];
    forall i | 0 <= i < |before|
      ensures before[i].msgid != op.msgid
        && !Below(before[i].policy, options.policy) && !Below(options.policy, before[i].policy)
    {
      if i < |queue| {
        assert queue[i] in queue;
      } else {
        assert before[i] == EntryFrom(ops[i - |queue|]);
      }
    }
    if |before| <= max {
      RetainAll(before, NotBelow(options.policy));
      assert before + [EntryFrom(op)] == queue + EntriesFrom(ops)[..m + 1];
    }
  }

  lemma SendOpsAlike(id: u64, payload: seq<byte>, options: OutOptions)
    requires Fragmented(payload)
    ensures Alike(SendOps(id, payload, NumFrag(payload), options), options)
    ensures SendOps(id, payload, NumFrag(payload), options) != []
  {
  }

  /**
    If no frame is taken meanwhile: all fragments of a message are accepted exactly when the queue is
    not full, holds nothing of their class above their level, not the first of them, none of
    them once the frames below their level are gone, and then has room for all. They then
    stand in index order behind what is left.
   */
  lemma FragmentsAcceptedIff(q: Queues<LinkFrame>, max: nat, id: u64, payload: seq<byte>, options: OutOptions)
    requires Fragmented(payload)
    ensures var queue, ops := Pick(q, options.priority), SendOps(id, payload, NumFrag(payload), options);
      && (AllAccepted(q, max, ops, options.priority) <==> TakesAll(queue, max, ops, options.policy))
      && (TakesAll(queue, max, ops, options.policy) ==>
        Pick(ApplyOps(q, max, ops), options.priority) == LeftBy(queue, options.policy) + EntriesFrom(ops))
  {
    SendOpsAlike(id, payload, options);
    AllAcceptedIff(q, max, SendOps(id, payload, NumFrag(payload), options), options);
  }

  /** Room is not enough: one queued reply of a higher level keeps out every fragment of a lower one. */
  lemma LowerReplyRefused(e: Entry<LinkFrame>, max: nat, id: u64, payload: seq<byte>)
    requires Fragmented(payload) && e.policy == Classy("negentropy", 2)
    ensures var ops := SendOps(id, payload, NumFrag(payload), OutOptions(High, Classy("negentropy", 1)));
      ApplyOps(Queues([], [e]), max, ops) == Queues([], [e])
  {
    var options := OutOptions(High, Classy("negentropy", 1));
    SendOpsAlike(id, payload, options);
    assert [e][0].policy == Classy("negentropy", 2);
    AllPreempted(Queues([], [e]), max, SendOps(id, payload, NumFrag(payload), options), options);
  }

  /**
    Into a queue that holds none of their ids and nothing of their class at another level, the
    fragments go in index order until it is full; all of them exactly when it has room for all.
   */
  lemma FragmentsQueued(q: Queues<LinkFrame>, max: nat, id: u64, payload: seq<byte>, options: OutOptions)
    requires Fragmented(payload) && |Pick(q, options.priority)| <= max + 1
    requires Unrelated(Pick(q, options.priority), SendOps(id, payload, NumFrag(payload), options), options.policy)
    ensures var queue, ops := Pick(q, options.priority), SendOps(id, payload, NumFrag(payload), options);
      var queue' := Pick(ApplyOps(q, max, ops), options.priority);
      && queue' == queue + EntriesFrom(ops)[..Fitting(NumFrag(payload), |queue|, max)]
      && (forall j :: 0 <= j < |queue'| - |queue| ==>
        queue'[|queue| + j] == Entry(MsgId(id, Some(j)), options.policy,
          Framed(Fragment(LinkFrag(id, NumFrag(payload), j, 0, Chunk(payload, j))))))
      && (|queue'| == |queue| + NumFrag(payload) <==> |queue| + NumFrag(payload) <= max + 1)
  {
    var queue, ops := Pick(q, options.priority), SendOps(id, payload, NumFrag(payload), options);
    AlikeFill(q, max, ops, options);
    var queue' := Pick(ApplyOps(q, max, ops), options.priority);
    forall j | 0 <= j < |queue'| - |queue|
      ensures queue'[|queue| + j] == Entry(MsgId(id, Some(j)), options.policy,
        Framed(Fragment(LinkFrag(id, NumFrag(payload), j, 0, Chunk(payload, j)))))
    {
      assert queue'[|queue| + j] == EntryFrom(ops[j]);
      assert ops[j] == SendOp(id, payload, j, options);
    }
  }

  /** On the slowest preset, the last of the five fragments of a 1000-byte message is refused even by empty queues. */
  lemma LastFragmentRefused(id: u64, payload: seq<byte>, options: OutOptions)
    requires |payload| == 1000
    ensures var max := OutgoingPolicyFor(DataKbps(VeryLongSlow)).outgoingQueueMax;
      var ops := SendOps(id, payload, NumFrag(payload), options);
      |ops| == 5 && Pick(ApplyOps(Queues([], []), max, ops), options.priority) == EntriesFrom(ops)[..4]
  {
    PresetNumbers();
    FragmentsQueued(Queues([], []), 3, id, payload, options);
  }

  // ---- answering requests ----

  function ResendOp(frag: LinkFrag): QueueOp {
    EnqueueOp(MsgId(frag.msgid, Some(frag.fragndx)), Framed(Fragment(frag)), RETRY_OPTIONS)
  }

  function ResendOps(frags: seq<LinkFrag>): (ops: seq<QueueOp>)
    ensures |ops| == |frags|
  {
    seq(|frags|, i requires 0 <= i < |frags| => ResendOp(frags[i]))
  }

  lemma ResendOneMore(q: Queues<LinkFrame>, max: nat, ops: seq<QueueOp>, frags: seq<LinkFrag>, i: nat)
    requires i < |frags|
    ensures ApplyOps(q, max, ops + ResendOps(frags)[..i + 1])
      == ApplyOp(ApplyOps(q, max, ops + ResendOps(frags)[..i]), max, ResendOp(frags[i]))
  {
    assert ops + ResendOps(frags)[..i + 1] == (ops + ResendOps(frags)[..i]) + [ResendOp(frags[i])];
    ApplyOneMore(q, max, ops + ResendOps(frags)[..i], ResendOp(frags[i]));
  }

  function NeedWork(c: Cache, missing: seq<LinkMissing>): (r: (Cache, seq<QueueOp>))
    requires ValidCache(c)
    ensures ValidCache(r.0)
  {
    if missing == [] then (c, [])
    else
      var (c', ops) := NeedWork(c, missing[..|missing| - 1]);
      var (c'', frags) := Fulfill(c', missing[|missing| - 1]);
      (c'', ops + ResendOps(frags))
  }

  // ---- hearing ----

  function CancelBoth(msgid: MsgId): seq<QueueOp> {
    [CancelOp(msgid, High), CancelOp(msgid, Normal)]
  }

  /** Once a node has heard a message or fragment, its own copies are gone from both queues, and nothing else is. */
  lemma HeardCopyIsDropped(q: Queues<LinkFrame>, max: nat, msgid: MsgId, e: Entry<LinkFrame>)
    ensures e in ApplyOps(q, max, CancelBoth(msgid)).high <==> e in q.high && e.msgid != msgid
    ensures e in ApplyOps(q, max, CancelBoth(msgid)).normal <==> e in q.normal && e.msgid != msgid
  {
    ApplyOneMore(q, max, [], CancelOp(msgid, High));
    ApplyOneMore(q, max, [CancelOp(msgid, High)], CancelOp(msgid, Normal));
  }

  datatype Work = Work(cache: Cache, ops: seq<QueueOp>, upcall: Option<LinkMsg>)

  function HearWork(c: Cache, frame: LinkFrame, now: nat): Work
    requires ValidCache(c)
  {
    match frame.payload
    case None => Work(c, [], None)
    case Some(Complete(msg)) => Work(c, CancelBoth(MsgId(msg.msgid, None)), Some(msg))
    case Some(Fragment(frag)) =>
      var (c', msg) := Add(c, frag, true, now);
      Work(c', CancelBoth(MsgId(frag.msgid, Some(frag.fragndx))), msg)
    case Some(Need(missing)) =>
      var (c', ops) := NeedWork(c, missing);
      Work(c', ops, None)
  }

  // ---- asking ----

  /** A batch of requests goes out as one frame, under an id hashed from it; nothing goes out for an empty batch. */
  function AskOps(reqs: seq<LinkMissing>, batchId: MsgId): seq<QueueOp> {
    if reqs == [] then [] else [EnqueueOp(batchId, Framed(Need(reqs)), RETRY_OPTIONS)]
  }
}

/** The ready signal: declared once, after the radio has been free of stale packets for a while. */
module ReadyGate {
  const LINK_STALE_SECS: int := 300
  const HOLDOFF_MSEC: nat := 5000

  datatype Gate = Gate(deadline: nat, declared: bool)

  /** A packet of this age in seconds comes in, or the one-second check runs; times are in milliseconds. */
  datatype Event = PacketIn(age: int, now: nat) | CheckReady(now: nat)

  function Opened(start: nat): Gate {
    Gate(start + HOLDOFF_MSEC, false)
  }

  /** The gate afterwards, and whether ready is declared. */
  function Step(g: Gate, e: Event): (Gate, bool) {
    match e
    case PacketIn(age, now) => (if age > LINK_STALE_SECS then g.(deadline := now + HOLDOFF_MSEC) else g, false)
    case CheckReady(now) =>
      if g.declared then (g, false)
      else if now >= g.deadline then (g.(declared := true), true)
      else (g, false)
  }

  function Run(start: nat, events: seq<Event>): Gate {
    if events == [] then Opened(start)
    else Step(Run(start, events[..|events| - 1]), events[|events| - 1]).0
  }

  predicate DeclaresAt(start: nat, events: seq<Event>, k: nat)
    requires k < |events|
  {
    Step(Run(start, events[..k]), events[k]).1
  }

  ghost predicate Ordered(start: nat, events: seq<Event>) {
    && (forall i :: 0 <= i < |events| ==> start <= events[i].now)
    && (forall i, j :: 0 <= i < j < |events| ==> events[i].now <= events[j].now)
  }

  predicate IsStale(e: Event) {
    e.PacketIn? && e.age > 300
  }

  ghost predicate Tracks(g: Gate, start: nat, events: seq<Event>) {
    && start + HOLDOFF_MSEC <= g.deadline
    && (forall i :: 0 <= i < |events| && IsStale(events[i]) ==> events[i].now + HOLDOFF_MSEC <= g.deadline)
    && (g.declared <==> exists i :: 0 <= i < |events| && DeclaresAt(start, events, i))
  }

  lemma DeclaresEarlier(start: nat, events: seq<Event>)
    requires events != []
    ensures forall i :: 0 <= i < |events| - 1 ==>
      (DeclaresAt(start, events, i) <==> DeclaresAt(start, events[..|events| - 1], i))
  {
    var prefix := events[..|events| - 1];
    forall i | 0 <= i < |prefix| ensures DeclaresAt(start, events, i) <==> DeclaresAt(start, prefix, i) {
      assert events[..i] == prefix[..i];
    }
  }

  lemma {:induction false} RunTracks(start: nat, events: seq<Event>)
    requires Ordered(start, events)
    ensures Tracks(Run(start, events), start, events)
  {
    if events != [] {
      var prefix, last := events[..|events| - 1], |events| - 1;
      RunTracks(start, prefix);
      DeclaresEarlier(start, events);
      forall i | 0 <= i < |events| && IsStale(events[i])
        ensures events[i].now + HOLDOFF_MSEC <= Run(start, events).deadline
      {
        if i < last { assert IsStale(prefix[i]); }
      }
      if Run(start, prefix).declared {
        var i :| 0 <= i < last && DeclaresAt(start, prefix, i);
        assert DeclaresAt(start, events, i);
      } else if Run(start, events).declared {
        assert DeclaresAt(start, events, last);
      }
    }
  }

  /** Ready comes at most once, and only after five seconds without a stale packet. */
  lemma ReadyOnceAfterQuiet(start: nat, events: seq<Event>, k: nat)
    requires Ordered(start, events) && k < |events| && DeclaresAt(start, events, k)
    ensures start + 5000 <= events[k].now
    ensures forall i :: 0 <= i < k && IsStale(events[i]) ==> events[i].now + 5000 <= events[k].now
    ensures forall j :: 0 <= j < k ==> !DeclaresAt(start, events, j)
  {
    var prefix := events[..k];
    RunTracks(start, prefix);
    forall i | 0 <= i < k && IsStale(events[i]) ensures events[i].now + HOLDOFF_MSEC <= events[k].now {
      assert IsStale(prefix[i]);
    }
    forall j | 0 <= j < k ensures !DeclaresAt(start, events, j) {
      assert prefix[..j] == events[..j];
      assert !DeclaresAt(start, prefix, j);
    }
  }

  /** The first check at which five seconds have passed since the start and since every stale packet declares ready. */
  lemma ReadyWhenQuiet(start: nat, events: seq<Event>, k: nat)
    requires Ordered(start, events) && k < |events| && events[k].CheckReady?
    requires start + 5000 <= events[k].now
    requires forall i :: 0 <= i < k && IsStale(events[i]) ==> events[i].now + 5000 <= events[k].now
    ensures exists j :: 0 <= j <= k && DeclaresAt(start, events, j)
  {
    var prefix := events[..k];
    RunTracks(start, prefix);
    DeadlineReached(start, prefix);
    var g := Run(start, prefix);
    if g.declared {
      var j :| 0 <= j < k && DeclaresAt(start, prefix, j);
      assert prefix[..j] == events[..j];
      assert DeclaresAt(start, events, j);
    } else {
      if g.deadline != start + HOLDOFF_MSEC {
        var i :| 0 <= i < |prefix| && IsStale(prefix[i]) && prefix[i].now + HOLDOFF_MSEC == g.deadline;
        assert IsStale(events[i]);
      }
      assert DeclaresAt(start, events, k);
    }
  }

  lemma {:induction false} DeadlineReached(start: nat, events: seq<Event>)
    ensures var d := Run(start, events).deadline;
      d == start + HOLDOFF_MSEC ||
      exists i :: 0 <= i < |events| && IsStale(events[i]) && events[i].now + HOLDOFF_MSEC == d
  {
    if events != [] {
      var prefix, e := events[..|events| - 1], events[|events| - 1];
      DeadlineReached(start, prefix);
      var d := Run(start, events).deadline;
      if IsStale(e) {
        assert events[|prefix|].now + HOLDOFF_MSEC == d;
      } else if d != start + HOLDOFF_MSEC {
        var i :| 0 <= i < |prefix| && IsStale(prefix[i]) && prefix[i].now + HOLDOFF_MSEC == d;
        assert IsStale(events[i]);
      }
    }
  }
}
