/** The link object and its handlers, each run to completion under the link lock. */
module LinkObject {
  import opened Prelude
  import opened LinkTypes
  import opened OutgoingQueues
  import opened FragCache
  import opened Fragmentation
  import opened LinkProtocol
  import opened ReadyGate

  /** The queues without the frames queued under this id, the others in their order. */
  function Without(q: Queues<LinkFrame>, msgid: MsgId): Queues<LinkFrame> {
    Queues(Retain(q.normal, NotId(msgid)), Retain(q.high, NotId(msgid)))
  }

  function Other(priority: Priority): Priority {
    match priority case Normal => High case High => Normal
  }

  datatype Upcall = Ready | Info(high: nat, normal: nat) | Message(msg: LinkMsg)

  class Link {
    const fragcache: FragmentCache
    const outgoing: Outgoing<LinkFrame>
    var clientOut: seq<Upcall>
    var readyDeadline: nat
    var declaredReady: bool

    constructor (queueMax: nat, txRateLimitMsec: nat, now: nat)
      ensures Valid() && fresh(fragcache) && fresh(outgoing)
      ensures fragcache.partials == map[] && outgoing.State() == Queues([], [])
      ensures clientOut == [] && GateState() == Opened(now)
    {
      fragcache := new FragmentCache();
      outgoing := new Outgoing<LinkFrame>(queueMax, txRateLimitMsec);
      clientOut := [];
      readyDeadline, declaredReady := now + HOLDOFF_MSEC, false;
      new;
      outgoing.StartRegulator();
    }

    ghost predicate Valid()
      reads this, fragcache, outgoing
    {
      fragcache.Valid() && outgoing.Valid() && outgoing.notify.Some?
    }

    function GateState(): Gate
      reads this
    {
      Gate(readyDeadline, declaredReady)
    }

    /** The state after a handler whose cache and queue work are given, if no frame is taken meanwhile. */
    ghost predicate Done(
        cache: Cache, queues: Queues<LinkFrame>, upcalls: seq<Upcall>, gate: Gate)
      reads this, fragcache, outgoing
    {
      && Valid() && fragcache.partials == cache && outgoing.State() == queues
      && clientOut == upcalls && GateState() == gate
    }

    method SendLinkMessage(msgid: MsgId, payload: seq<byte>, options: OutOptions, now: nat)
      requires Valid() && Sendable(payload)
      modifies this, fragcache, outgoing
      ensures var (cache, ops) := SendWork(old(fragcache.partials), msgid, payload, options, now);
        Done(cache, ApplyOps(old(outgoing.State()), outgoing.queueMax, ops), old(clientOut), old(GateState()))
      ensures Fragmented(payload) ==>
        && msgid.base in fragcache.partials
        && (Slots(fragcache.partials[msgid.base].frags) == Chunks(payload) <==>
          (msgid.base in old(fragcache.partials) ==>
            |old(fragcache.partials)[msgid.base].frags| == NumFrag(payload)))
      ensures Fragmented(payload) ==>
        var ops := SendOps(msgid.base, payload, NumFrag(payload), options);
        Pick(outgoing.State(), options.priority)
          == Offered(Pick(old(outgoing.State()), options.priority), outgoing.queueMax, ops, options.policy)
      ensures |payload| <= 200 ==>
        var e := Entry(msgid, options.policy, Framed(Complete(LinkMsg(msgid.base, payload))));
        var queue := Pick(old(outgoing.State()), options.priority);
        && fragcache.partials == old(fragcache.partials)
        && Pick(outgoing.State(), options.priority) ==
          if |queue| <= outgoing.queueMax && !HasId(queue, msgid) && !HasAbove(queue, options.policy)
          then LeftBy(queue, options.policy) + [e] else queue
      ensures Pick(outgoing.State(), Other(options.priority)) == Pick(old(outgoing.State()), Other(options.priority))
    {
      if |payload| > LINK_FRAG_THRESH {
        OwnChunksAreHeld(fragcache.partials, msgid.base, payload, now);
        SendOpsAlike(msgid.base, payload, options);
        AlikeOffered(outgoing.State(), outgoing.queueMax,
          SendOps(msgid.base, payload, NumFrag(payload), options), options);
        SendFragments(msgid, payload, options, now);
      } else {
        var frame := Framed(Complete(LinkMsg(msgid.base, payload)));
        ApplyOneMore(outgoing.State(), outgoing.queueMax, [], EnqueueOp(msgid, frame, options));
        var action := outgoing.Enqueue(msgid, frame, options);
      }
    }

    method SendFragments(msgid: MsgId, payload: seq<byte>, options: OutOptions, now: nat)
      requires Valid() && Sendable(payload)
      modifies this, fragcache, outgoing
      ensures Done(
        KeepOwn(old(fragcache.partials), msgid.base, payload, NumFrag(payload), now),
        ApplyOps(old(outgoing.State()), outgoing.queueMax, SendOps(msgid.base, payload, NumFrag(payload), options)),
        old(clientOut), old(GateState()))
    {
      ghost var c, q := fragcache.partials, outgoing.State();
      var numfrag := NumFrag(payload);
      for i := 0 to numfrag
        invariant Done(
          KeepOwn(c, msgid.base, payload, i, now),
          ApplyOps(q, outgoing.queueMax, SendOps(msgid.base, payload, i, options)),
          old(clientOut), old(GateState()))
      {
        SendOneMore(q, outgoing.queueMax, msgid.base, payload, i, options);
        var frag := LinkFrag(msgid.base, numfrag, i, 0, payload[ChunkEnd(payload, i)..ChunkEnd(payload, i + 1)]);
        SendFragment(frag, options, now);
      }
    }

    method SendFragment(frag: LinkFrag, options: OutOptions, now: nat)
      requires Valid()
      modifies fragcache, outgoing
      ensures Done(Add(old(fragcache.partials), frag, false, now).0,
        ApplyOp(old(outgoing.State()), outgoing.queueMax,
          EnqueueOp(MsgId(frag.msgid, Some(frag.fragndx)), Framed(Fragment(frag)), options)),
        clientOut, GateState())
    {
      var _ := fragcache.AddFragment(frag, false, now);
      var action := outgoing.Enqueue(MsgId(frag.msgid, Some(frag.fragndx)), Framed(Fragment(frag)), options);
    }

    method HandleLinkFrame(frame: LinkFrame, now: nat)
      requires Valid()
      modifies this, fragcache, outgoing
      ensures var work := HearWork(old(fragcache.partials), frame, now);
        Done(work.cache, ApplyOps(old(outgoing.State()), outgoing.queueMax, work.ops),
          old(clientOut) + (if work.upcall.Some? then [Message(work.upcall.value)] else []), old(GateState()))
      ensures frame.payload.None? ==>
        Done(old(fragcache.partials), old(outgoing.State()), old(clientOut), old(GateState()))
      ensures frame.payload.Some? && frame.payload.value.Complete? ==>
        var msg := frame.payload.value.msg;
        && clientOut == old(clientOut) + [Message(msg)] && fragcache.partials == old(fragcache.partials)
        && outgoing.State() == Without(old(outgoing.State()), MsgId(msg.msgid, None))
      ensures frame.payload.Some? && frame.payload.value.Fragment? ==>
        var frag := frame.payload.value.frag;
        && outgoing.State() == Without(old(outgoing.State()), MsgId(frag.msgid, Some(frag.fragndx)))
        && clientOut == old(clientOut) + match Add(old(fragcache.partials), frag, true, now).1
             case Some(msg) => [Message(msg)]
             case None => []
    {
      ghost var upcalls := clientOut;
      assert upcalls + [] == upcalls;
      match frame.payload {
        case None =>
        case Some(Complete(msg)) =>
          CancelOutgoing(MsgId(msg.msgid, None));
          clientOut := clientOut + [Message(msg)];
        case Some(Fragment(frag)) =>
          CancelOutgoing(MsgId(frag.msgid, Some(frag.fragndx)));
          var msg := fragcache.AddFragment(frag, true, now);
          if msg.Some? {
            clientOut := clientOut + [Message(msg.value)];
          }
        case Some(Need(missing)) =>
          HandleNeed(missing);
      }
    }

    /** Another node was first: drop our own copies from both queues. */
    method CancelOutgoing(msgid: MsgId)
      requires Valid()
      modifies outgoing
      ensures Valid()
      ensures outgoing.State() == ApplyOps(old(outgoing.State()), outgoing.queueMax, CancelBoth(msgid))
      ensures outgoing.State() == Without(old(outgoing.State()), msgid)
    {
      ghost var q := outgoing.State();
      outgoing.Cancel(msgid, High);
      outgoing.Cancel(msgid, Normal);
      ApplyOneMore(q, outgoing.queueMax, [], CancelOp(msgid, High));
      ApplyOneMore(q, outgoing.queueMax, [CancelOp(msgid, High)], CancelOp(msgid, Normal));
    }

    method HandleNeed(missing: seq<LinkMissing>)
      requires Valid()
      modifies fragcache, outgoing
      ensures var (cache, ops) := NeedWork(old(fragcache.partials), missing);
        Done(cache, ApplyOps(old(outgoing.State()), outgoing.queueMax, ops), old(clientOut), old(GateState()))
    {
      ghost var c, q := fragcache.partials, outgoing.State();
      for i := 0 to |missing|
        invariant Done(NeedWork(c, missing[..i]).0,
          ApplyOps(q, outgoing.queueMax, NeedWork(c, missing[..i]).1), old(clientOut), old(GateState()))
      {
        assert missing[..i + 1][..i] == missing[..i];
        ghost var ops := NeedWork(c, missing[..i]).1;
        var frags := fragcache.FulfillMissing(missing[i]);
        Resend(frags, q, ops);
      }
      assert missing[..|missing|] == missing;
    }

    method Resend(frags: seq<LinkFrag>, ghost q: Queues<LinkFrame>, ghost ops: seq<QueueOp>)
      requires Valid() && outgoing.State() == ApplyOps(q, outgoing.queueMax, ops)
      modifies outgoing
      ensures Valid() && outgoing.State() == ApplyOps(q, outgoing.queueMax, ops + ResendOps(frags))
    {
      assert ops + ResendOps(frags)[..0] == ops;
      for i := 0 to |frags|
        invariant Valid()
        invariant outgoing.State() == ApplyOps(q, outgoing.queueMax, ops + ResendOps(frags)[..i])
      {
        var frag := frags[i];
        ResendOneMore(q, outgoing.queueMax, ops, frags, i);
        var action := outgoing.Enqueue(MsgId(frag.msgid, Some(frag.fragndx)), Framed(Fragment(frag)), RETRY_OPTIONS);
      }
      assert ResendOps(frags)[..|frags|] == ResendOps(frags);
    }

    /** batchId stands for the hash of the encoded request frame. */
    method SendFragmentRetries(now: nat, batchId: MsgId) returns (reqs: seq<LinkMissing>)
      requires Valid()
      modifies this, fragcache, outgoing
      ensures IsRequestFor(reqs, old(fragcache.partials), now)
      ensures Done(AfterOverdue(old(fragcache.partials), now),
        ApplyOps(old(outgoing.State()), outgoing.queueMax, AskOps(reqs, batchId)), old(clientOut), old(GateState()))
      ensures outgoing.normal == old(outgoing.normal)
      ensures outgoing.high == old(outgoing.high) +
        if reqs != [] && |old(outgoing.high)| <= outgoing.queueMax && !HasId(old(outgoing.high), batchId)
        then [Entry(batchId, Plainly, Framed(Need(reqs)))] else []
    {
      assert outgoing.high + [] == outgoing.high;
      RetainAll(outgoing.high, NotBelow(Plainly));
      ghost var q := outgoing.State();
      reqs := fragcache.OverdueMissing(now);
      if reqs == [] {
        return;
      }
      var action := outgoing.Enqueue(batchId, Framed(Need(reqs)), RETRY_OPTIONS);
      ApplyOneMore(q, outgoing.queueMax, [], EnqueueOp(batchId, Framed(Need(reqs)), RETRY_OPTIONS));
    }

    /** Only the ready gate looks at the age of a packet that is too old to be handled. */
    method ReceivePacket(age: int, frame: LinkFrame, nowSecs: nat, nowMsec: nat)
      requires Valid()
      modifies this, fragcache, outgoing
      ensures age > LINK_STALE_SECS ==> Done(old(fragcache.partials), old(outgoing.State()), old(clientOut),
        Step(old(GateState()), PacketIn(age, nowMsec)).0)
      ensures age <= LINK_STALE_SECS ==>
        var work := HearWork(old(fragcache.partials), frame, nowSecs);
        Done(work.cache, ApplyOps(old(outgoing.State()), outgoing.queueMax, work.ops),
          old(clientOut) + (if work.upcall.Some? then [Message(work.upcall.value)] else []),
          Step(old(GateState()), PacketIn(age, nowMsec)).0)
    {
      if age > LINK_STALE_SECS {
        readyDeadline := nowMsec + HOLDOFF_MSEC;
        return;
      }
      HandleLinkFrame(frame, nowSecs);
    }

    /** Returns whether the check task is done. Ready is followed at once by an info message. */
    method MaybeDeclareReady(now: nat) returns (done: bool)
      requires Valid()
      modifies this
      ensures done == GateState().declared
      ensures var (gate, declares) := Step(old(GateState()), CheckReady(now));
        Done(old(fragcache.partials), old(outgoing.State()),
          old(clientOut) + (if declares then [Ready, Info(|outgoing.high|, |outgoing.normal|)] else []), gate)
    {
      ghost var upcalls := clientOut;
      assert upcalls + [] == upcalls;
      if declaredReady {
        return true;
      }
      if now >= readyDeadline {
        clientOut := clientOut + [Ready];
        declaredReady := true;
        var qlen := outgoing.QLen();
        clientOut := clientOut + [Info(qlen.0, qlen.1)];
        assert clientOut == upcalls + [Ready, Info(qlen.0, qlen.1)];
        return true;
      }
      return false;
    }
  }
}
