/**
  Any number of nodes on one lossy radio channel. A packet once sent may be heard by any node,
  any number of times, in any order, or never. Every node sends, relays nothing it did not send
  or cache, asks for what it misses and answers others from its own possibly partial cache.
 */
module Meshes {
  import opened Prelude
  import opened Escape94C3
  import opened LinkTypes
  import opened OutgoingQueues
  import opened FragCache
  import opened Fragmentation
  import opened Repair
  import opened LinkProtocol

  /** Protobuf encoding of a frame, of which only the round trip is known. */
  datatype Codec = Codec(encode: LinkFrame -> seq<byte>, decode: seq<byte> -> Option<LinkFrame>)

  /** What is fixed: the one payload of each message id, the codec and the queue size. */
  datatype World = World(payloads: map<u64, seq<byte>>, codec: Codec, queueMax: nat)

  datatype Node = Node(
    cache: Cache,
    ops: seq<QueueOp>,            // queue work left to the handler that holds the link lock
    queues: Queues<LinkFrame>,
    hand: Option<LinkFrame>,      // taken by the regulator, which waits for the link lock
    upcalls: seq<LinkMsg>)

  datatype Mesh = Mesh(nodes: seq<Node>, air: set<seq<byte>>)

  datatype Step =
    | Send(n: nat, msgid: MsgId, options: OutOptions, now: nat)
    | QueueTurn(n: nat)
    | Take(n: nat)
    | Transmit(n: nat)
    | Hear(n: nat, packet: seq<byte>, now: nat)
    | Ask(n: nat, now: nat, reqs: seq<LinkMissing>, batchId: MsgId)

  const EMPTY_NODE := Node(map[], [], Queues([], []), None, [])

  ghost predicate ValidWorld(w: World) {
    && (forall f :: w.codec.decode(w.codec.encode(f)) == Some(f))
    && (forall id :: id in w.payloads ==> Sendable(w.payloads[id]))
  }

  ghost predicate CachesValid(m: Mesh) {
    forall n :: 0 <= n < |m.nodes| ==> ValidCache(m.nodes[n].cache)
  }

  /** The frame a node makes of a packet; None stands for the source's panic or decode error. */
  function Received(w: World, packet: seq<byte>): Option<LinkFrame> {
    match Unescape(packet)
    case Success(buffer) => w.codec.decode(buffer)
    case Failure(_) => None
  }

  function Packet(w: World, frame: LinkFrame): seq<byte> {
    Escape(w.codec.encode(frame))
  }

  // ---- the steps of one node ----

  function DoSend(w: World, node: Node, msgid: MsgId, options: OutOptions, now: nat): Node
    requires msgid.base in w.payloads && Sendable(w.payloads[msgid.base])
  {
    var (cache, ops) := SendWork(node.cache, msgid, w.payloads[msgid.base], options, now);
    node.(cache := cache, ops := ops)
  }

  function DoQueueTurn(w: World, node: Node): Node
    requires node.ops != []
  {
    node.(queues := ApplyOp(node.queues, w.queueMax, node.ops[0]), ops := node.ops[1..])
  }

  function DoTake(node: Node): Node {
    var (queues, next) := PopFront(node.queues);
    match next
    case Some(e) => node.(queues := queues, hand := Some(e.frame))
    case None => node
  }

  function DoHear(node: Node, frame: LinkFrame, now: nat): Node
    requires ValidCache(node.cache)
  {
    var work := HearWork(node.cache, frame, now);
    node.(cache := work.cache, ops := work.ops,
          upcalls := node.upcalls + if work.upcall.Some? then [work.upcall.value] else [])
  }

  function DoAsk(node: Node, now: nat, reqs: seq<LinkMissing>, batchId: MsgId): Node {
    node.(cache := AfterOverdue(node.cache, now), ops := AskOps(reqs, batchId))
  }

  /**
    One step of the mesh; a step whose guard fails changes nothing. A handler starts only when
    the link lock is free.
   */
  ghost function Do(w: World, m: Mesh, step: Step): Mesh
    requires ValidWorld(w) && CachesValid(m)
  {
    if step.n >= |m.nodes| then m
    else
      var node := m.nodes[step.n];
      match step
      case Send(n, msgid, options, now) =>
        if node.ops == [] && msgid.base in w.payloads
        then m.(nodes := m.nodes[n := DoSend(w, node, msgid, options, now)]) else m
      case QueueTurn(n) =>
        if node.ops != [] then m.(nodes := m.nodes[n := DoQueueTurn(w, node)]) else m
      case Take(n) =>
        if node.hand.None? then m.(nodes := m.nodes[n := DoTake(node)]) else m
      case Transmit(n) =>
        if node.hand.Some? && node.ops == []
        then Mesh(m.nodes[n := node.(hand := None)], m.air + {Packet(w, node.hand.value)}) else m
      case Hear(n, packet, now) =>
        if node.ops == [] && packet in m.air && Received(w, packet).Some?
        then m.(nodes := m.nodes[n := DoHear(node, Received(w, packet).value, now)]) else m
      case Ask(n, now, reqs, batchId) =>
        if node.ops == [] && IsRequestFor(reqs, node.cache, now)
        then m.(nodes := m.nodes[n := DoAsk(node, now, reqs, batchId)]) else m
  }

  // ---- authenticity ----

  predicate IsMessage(w: World, id: u64) {
    id in w.payloads && Fragmented(w.payloads[id])
  }

  /** A frame says nothing but the truth about payloads; what a request asks for is free. */
  predicate TrueFrame(w: World, frame: LinkFrame) {
    match frame.payload
    case None => true
    case Some(Complete(msg)) =>
      msg.msgid in w.payloads && msg.data == w.payloads[msg.msgid] && |msg.data| <= LINK_FRAG_THRESH
    case Some(Fragment(frag)) => IsMessage(w, frag.msgid) && CopyOf(frag, frag.msgid, w.payloads[frag.msgid])
    case Some(Need(_)) => true
  }

  predicate TrueOp(w: World, op: QueueOp) {
    op.EnqueueOp? ==> TrueFrame(w, op.frame)
  }

  ghost predicate TrueQueue(w: World, queue: seq<Entry<LinkFrame>>) {
    forall e :: e in queue ==> TrueFrame(w, e.frame)
  }

  /** Every slot is empty or the origin's chunk, and a completed message has no gap. */
  ghost predicate TrueCache(w: World, c: Cache) {
    forall id :: id in c ==>
      IsMessage(w, id) && EntryOf(c[id], w.payloads[id]) && (c[id].completed ==> Whole(c[id]))
  }

  function CountOf(upcalls: seq<LinkMsg>, id: u64): nat {
    if upcalls == [] then 0
    else CountOf(upcalls[..|upcalls| - 1], id) + if upcalls[|upcalls| - 1].msgid == id then 1 else 0
  }

  /** Each upcall is the payload; a fragmented message is handed up once, exactly when its entry is completed. */
  ghost predicate TrueUpcalls(w: World, node: Node) {
    && (forall msg :: msg in node.upcalls ==> msg.msgid in w.payloads && msg.data == w.payloads[msg.msgid])
    && (forall id :: IsMessage(w, id) ==>
      CountOf(node.upcalls, id) == if id in node.cache && node.cache[id].completed then 1 else 0)
  }

  ghost predicate TrueNode(w: World, node: Node) {
    && TrueCache(w, node.cache)
    && (forall i :: 0 <= i < |node.ops| ==> TrueOp(w, node.ops[i]))
    && TrueQueue(w, node.queues.normal) && TrueQueue(w, node.queues.high)
    && (node.hand.Some? ==> TrueFrame(w, node.hand.value))
    && TrueUpcalls(w, node)
  }

  ghost predicate TruePacket(w: World, packet: seq<byte>) {
    exists frame :: TrueFrame(w, frame) && packet == Packet(w, frame)
  }

  ghost predicate TrueMesh(w: World, m: Mesh) {
    && (forall n :: 0 <= n < |m.nodes| ==> TrueNode(w, m.nodes[n]))
    && (forall packet :: packet in m.air ==> TruePacket(w, packet))
  }

  lemma TrueCacheIsValid(w: World, c: Cache)
    requires TrueCache(w, c)
    ensures ValidCache(c)
  {
    forall id | id in c ensures |c[id].frags| < 0x1_0000_0000 {
      assert EntryOf(c[id], w.payloads[id]);
    }
  }

  /** A packet on the air is received as the very frame that was sent, and never holds the radio's start marker. */
  lemma PacketsAreReceived(w: World, packet: seq<byte>)
    requires ValidWorld(w) && TruePacket(w, packet)
    ensures Received(w, packet).Some? && TrueFrame(w, Received(w, packet).value)
    ensures packet == Packet(w, Received(w, packet).value)
    ensures !HasPair(packet, 0x94, 0xC3)
  {
    var frame :| TrueFrame(w, frame) && packet == Packet(w, frame);
    UnescapeEscape(w.codec.encode(frame));
    EscapeHasNoPair(w.codec.encode(frame));
  }

  // ---- one fragment into one cache ----

  /** What adding a true fragment does: the entry stays true, and completing it hands up the payload. */
  lemma AddIsTrue(w: World, c: Cache, frag: LinkFrag, inbound: bool, now: nat)
    requires TrueCache(w, c) && IsMessage(w, frag.msgid) && CopyOf(frag, frag.msgid, w.payloads[frag.msgid])
    ensures var (c', msg) := Add(c, frag, inbound, now);
      && TrueCache(w, c')
      && (msg.Some? ==> inbound && msg.value == LinkMsg(frag.msgid, w.payloads[frag.msgid]))
      && (c'[frag.msgid].completed <==> (frag.msgid in c && c[frag.msgid].completed) || msg.Some?)
      && (msg.Some? ==> !(frag.msgid in c && c[frag.msgid].completed))
  {
    var id, payload := frag.msgid, w.payloads[frag.msgid];
    var p := EntryFor(c, frag, inbound, now);
    assert EntryOf(p, payload);
    ChunkSizes(payload, frag.fragndx);
    var p' := Stored(p, frag);
    assert EntryOf(p', payload);
    if Whole(p') {
      WholeIsJoined(p', payload);
    }
    var c' := Add(c, frag, inbound, now).0;
    forall x | x in c'
      ensures IsMessage(w, x) && EntryOf(c'[x], w.payloads[x]) && (c'[x].completed ==> Whole(c'[x]))
    {
      if x == id {
        assert p.completed ==> Whole(p');
      }
    }
  }

  /** Which messages a cache has completed. */
  ghost predicate SameCompleted(c: Cache, c': Cache) {
    forall id :: (id in c && c[id].completed) <==> (id in c' && c'[id].completed)
  }

  lemma SameCompletedTwice(a: Cache, b: Cache, c: Cache)
    requires SameCompleted(a, b) && SameCompleted(b, c)
    ensures SameCompleted(a, c)
  {
  }

  lemma KeepOneIsTrue(w: World, start: Cache, c: Cache, id: u64, i: nat, now: nat)
    requires TrueCache(w, c) && SameCompleted(start, c)
    requires IsMessage(w, id) && i < NumFrag(w.payloads[id]) && Sendable(w.payloads[id])
    ensures var c' := Add(c, OriginalFrag(id, w.payloads[id], i), false, now).0;
      TrueCache(w, c') && SameCompleted(start, c')
  {
    OriginalIsCopy(id, w.payloads[id], i);
    AddIsTrue(w, c, OriginalFrag(id, w.payloads[id], i), false, now);
    SameCompletedTwice(start, c, Add(c, OriginalFrag(id, w.payloads[id], i), false, now).0);
  }

  lemma {:induction false} KeepOwnIsTrue(w: World, c: Cache, id: u64, n: nat, now: nat)
    requires TrueCache(w, c) && IsMessage(w, id) && n <= NumFrag(w.payloads[id]) && Sendable(w.payloads[id])
    ensures TrueCache(w, KeepOwn(c, id, w.payloads[id], n, now))
    ensures SameCompleted(c, KeepOwn(c, id, w.payloads[id], n, now))
  {
    if n > 0 {
      KeepOwnIsTrue(w, c, id, n - 1, now);
      KeepOneIsTrue(w, c, KeepOwn(c, id, w.payloads[id], n - 1, now), id, n - 1, now);
    }
  }

  lemma FulfillIsTrue(w: World, c: Cache, missing: LinkMissing)
    requires TrueCache(w, c) && ValidCache(c)
    ensures TrueCache(w, Fulfill(c, missing).0) && SameCompleted(c, Fulfill(c, missing).0)
    ensures forall f :: f in Fulfill(c, missing).1 ==>
      IsMessage(w, f.msgid) && CopyOf(f, f.msgid, w.payloads[f.msgid])
  {
    var id := missing.msgid;
    if id in c {
      var frags, want := c[id].frags, missing.fragndx;
      AnswerKeepsData(id, frags, want);
      AnswerIsHeldData(id, frags, want);
      var after := Answer(id, frags, want).1;
      assert forall i :: 0 <= i < |frags| ==> after[i].data == Slots(after)[i] == Slots(frags)[i] == frags[i].data;
      assert EntryOf(c[id], w.payloads[id]);
      forall f | f in Fulfill(c, missing).1
        ensures IsMessage(w, f.msgid) && CopyOf(f, f.msgid, w.payloads[f.msgid])
      {
        var j :| 0 <= j < |Answer(id, frags, want).0| && Answer(id, frags, want).0[j] == f;
        assert Answers(f, id, frags, want);
      }
    }
  }

  ghost predicate TrueOps(w: World, ops: seq<QueueOp>) {
    forall i :: 0 <= i < |ops| ==> TrueOp(w, ops[i])
  }

  lemma {:induction false} NeedWorkIsTrue(w: World, c: Cache, missing: seq<LinkMissing>)
    requires TrueCache(w, c) && ValidCache(c)
    ensures TrueCache(w, NeedWork(c, missing).0) && SameCompleted(c, NeedWork(c, missing).0)
    ensures TrueOps(w, NeedWork(c, missing).1)
  {
    if missing != [] {
      var shorter, last := missing[..|missing| - 1], missing[|missing| - 1];
      NeedWorkIsTrue(w, c, shorter);
      var (c', ops) := NeedWork(c, shorter);
      FulfillIsTrue(w, c', last);
      var frags := Fulfill(c', last).1;
      forall i | 0 <= i < |frags| ensures TrueOp(w, ResendOps(frags)[i]) {
        assert frags[i] in frags;
      }
    }
  }

  // ---- each step keeps the truth ----

  lemma SendKeepsTruth(w: World, node: Node, msgid: MsgId, options: OutOptions, now: nat)
    requires ValidWorld(w) && TrueNode(w, node) && msgid.base in w.payloads && Sendable(w.payloads[msgid.base])
    ensures TrueNode(w, DoSend(w, node, msgid, options, now))
  {
    var payload := w.payloads[msgid.base];
    if |payload| > LINK_FRAG_THRESH {
      KeepOwnIsTrue(w, node.cache, msgid.base, NumFrag(payload), now);
      var ops := SendOps(msgid.base, payload, NumFrag(payload), options);
      forall i | 0 <= i < |ops| ensures TrueOp(w, ops[i]) {
        OriginalIsCopy(msgid.base, payload, i);
      }
    }
  }

  lemma QueueTurnKeepsTruth(w: World, node: Node)
    requires TrueNode(w, node) && node.ops != []
    ensures TrueNode(w, DoQueueTurn(w, node))
  {
    var op, node' := node.ops[0], DoQueueTurn(w, node);
    assert TrueOp(w, op);
    forall i | 0 <= i < |node'.ops| ensures TrueOp(w, node'.ops[i]) {
      assert node'.ops[i] == node.ops[i + 1];
    }
    OpKeepsTruth(w, node.queues, op);
  }

  lemma OpKeepsTruth(w: World, q: Queues<LinkFrame>, op: QueueOp)
    requires TrueQueue(w, q.normal) && TrueQueue(w, q.high) && TrueOp(w, op)
    ensures TrueQueue(w, ApplyOp(q, w.queueMax, op).normal) && TrueQueue(w, ApplyOp(q, w.queueMax, op).high)
  {
  }

  lemma HearKeepsTruth(w: World, node: Node, frame: LinkFrame, now: nat)
    requires TrueNode(w, node) && ValidCache(node.cache) && TrueFrame(w, frame)
    ensures TrueNode(w, DoHear(node, frame, now))
  {
    var node' := DoHear(node, frame, now);
    match frame.payload {
      case Some(Fragment(frag)) => HearFragmentKeepsTruth(w, node, frag, now);
      case Some(Need(missing)) =>
        NeedWorkIsTrue(w, node.cache, missing);
        assert node'.upcalls == node.upcalls;
      case Some(Complete(msg)) => UpcallKeepsTruth(w, node, node', msg);
      case None =>
        assert node'.upcalls == node.upcalls;
    }
  }

  lemma HearFragmentKeepsTruth(w: World, node: Node, frag: LinkFrag, now: nat)
    requires TrueNode(w, node) && ValidCache(node.cache) && TrueFrame(w, Framed(Fragment(frag)))
    ensures var node' := DoHear(node, Framed(Fragment(frag)), now);
      TrueCache(w, node'.cache) && TrueUpcalls(w, node')
  {
    var node' := DoHear(node, Framed(Fragment(frag)), now);
    var msg := Add(node.cache, frag, true, now).1;
    AddIsTrue(w, node.cache, frag, true, now);
    if msg.Some? {
      UpcallKeepsTruth(w, node, node', msg.value);
    } else {
      assert node'.upcalls == node.upcalls;
    }
  }

  lemma UpcallKeepsTruth(w: World, node: Node, node': Node, msg: LinkMsg)
    requires TrueUpcalls(w, node) && node'.upcalls == node.upcalls + [msg]
    requires msg.msgid in w.payloads && msg.data == w.payloads[msg.msgid]
    requires forall id :: id != msg.msgid ==>
      ((id in node.cache && node.cache[id].completed) <==> (id in node'.cache && node'.cache[id].completed))
    requires IsMessage(w, msg.msgid) ==>
      && !(msg.msgid in node.cache && node.cache[msg.msgid].completed)
      && msg.msgid in node'.cache && node'.cache[msg.msgid].completed
    ensures TrueUpcalls(w, node')
  {
    assert node'.upcalls[..|node'.upcalls| - 1] == node.upcalls;
  }

  lemma AskKeepsTruth(w: World, node: Node, now: nat, reqs: seq<LinkMissing>, batchId: MsgId)
    requires TrueNode(w, node)
    ensures TrueNode(w, DoAsk(node, now, reqs, batchId))
  {
  }

  lemma TakeKeepsTruth(w: World, node: Node)
    requires TrueNode(w, node)
    ensures TrueNode(w, DoTake(node))
  {
  }

  lemma StepKeepsTruth(w: World, m: Mesh, step: Step)
    requires ValidWorld(w) && CachesValid(m) && TrueMesh(w, m)
    ensures TrueMesh(w, Do(w, m, step))
  {
    if step.n < |m.nodes| {
      var node := m.nodes[step.n];
      assert TrueNode(w, node);
      match step
      case Send(n, msgid, options, now) =>
        if msgid.base in w.payloads { SendKeepsTruth(w, node, msgid, options, now); }
      case QueueTurn(n) =>
        if node.ops != [] { QueueTurnKeepsTruth(w, node); }
      case Take(n) =>
        TakeKeepsTruth(w, node);
      case Transmit(n) =>
        if node.hand.Some? { assert TruePacket(w, Packet(w, node.hand.value)); }
      case Hear(n, packet, now) =>
        if packet in m.air {
          PacketsAreReceived(w, packet);
          HearKeepsTruth(w, node, Received(w, packet).value, now);
        }
      case Ask(n, now, reqs, batchId) =>
        AskKeepsTruth(w, node, now, reqs, batchId);
    }
  }

  // ---- runs ----

  ghost function Run(w: World, size: nat, steps: seq<Step>): (m: Mesh)
    requires ValidWorld(w)
    ensures TrueMesh(w, m) && CachesValid(m) && |m.nodes| == size
  {
    if steps == [] then StartIsTrue(w, size); Mesh(seq(size, _ => EMPTY_NODE), {})
    else
      var m := Run(w, size, steps[..|steps| - 1]);
      StepKeepsTruth(w, m, steps[|steps| - 1]);
      var m' := Do(w, m, steps[|steps| - 1]);
      TrueMeshIsValid(w, m');
      m'
  }

  lemma StartIsTrue(w: World, size: nat)
    ensures TrueMesh(w, Mesh(seq(size, _ => EMPTY_NODE), {}))
  {
  }

  lemma TrueMeshIsValid(w: World, m: Mesh)
    requires TrueMesh(w, m)
    ensures CachesValid(m)
  {
    forall n | 0 <= n < |m.nodes| ensures ValidCache(m.nodes[n].cache) {
      TrueCacheIsValid(w, m.nodes[n].cache);
    }
  }

  /**
    Integrity in every run of any number of nodes: each filled slot of each cache is the origin's
    chunk, each message handed to a client is the payload of its id byte for byte, and each
    fragmented message is handed up at most once per node, and never before it is whole.
   */
  lemma Integrity(w: World, size: nat, steps: seq<Step>, n: nat, id: u64)
    requires ValidWorld(w) && n < size && id in w.payloads
    ensures var node := Run(w, size, steps).nodes[n];
      && (id in node.cache ==> Fragmented(w.payloads[id]) && |node.cache[id].frags| == NumFrag(w.payloads[id]))
      && (id in node.cache ==> forall i :: 0 <= i < |node.cache[id].frags| && node.cache[id].frags[i].data != [] ==>
        node.cache[id].frags[i].data == Chunk(w.payloads[id], i))
      && (forall k :: 0 <= k < |node.upcalls| && node.upcalls[k].msgid == id ==> node.upcalls[k].data == w.payloads[id])
      && (Fragmented(w.payloads[id]) ==>
        CountOf(node.upcalls, id) == if id in node.cache && node.cache[id].completed then 1 else 0)
      && (id in node.cache && node.cache[id].completed ==> Whole(node.cache[id]))
  {
    var node := Run(w, size, steps).nodes[n];
    assert TrueNode(w, node);
    if id in node.cache {
      assert EntryOf(node.cache[id], w.payloads[id]);
    }
    forall k | 0 <= k < |node.upcalls| && node.upcalls[k].msgid == id ensures node.upcalls[k].data == w.payloads[id] {
      assert node.upcalls[k] in node.upcalls;
    }
  }

  /** Every packet of every run is received as the frame that was sent, and carries only true fragments. */
  lemma AirIsTrue(w: World, size: nat, steps: seq<Step>, packet: seq<byte>)
    requires ValidWorld(w) && packet in Run(w, size, steps).air
    ensures !HasPair(packet, 0x94, 0xC3)
    ensures Unescape(packet).Success?
    ensures exists frame :: TrueFrame(w, frame) && packet == Packet(w, frame) && Received(w, packet) == Some(frame)
  {
    PacketsAreReceived(w, packet);
  }

  ghost function CachesOf(m: Mesh, who: seq<nat>): (r: seq<Cache>)
    requires forall j :: 0 <= j < |who| ==> who[j] < |m.nodes|
    ensures |r| == |who|
  {
    seq(|who|, j requires 0 <= j < |who| => m.nodes[who[j]].cache)
  }

  /**
    Repair from any reachable state: a node that misses part of a message asks for exactly its
    gap, and one lossless round of answers from any other nodes removes from the gap exactly
    what those nodes hold, delivering the payload once if that is all of it.
   */
  lemma RepairInAnyRun(
      w: World, size: nat, steps: seq<Step>, n: nat, id: u64, who: seq<nat>,
      request: LinkMissing, frags: seq<LinkFrag>, now: nat)
    requires ValidWorld(w) && n < size && forall j :: 0 <= j < |who| ==> who[j] < size
    requires var m := Run(w, size, steps);
      && id in m.nodes[n].cache && !Whole(m.nodes[n].cache[id])
      && request == LinkMissing(id, Missing(m.nodes[n].cache[id]))
      && (forall j :: 0 <= j < |who| ==> ValidCache(CachesOf(m, who)[j]))
      && AnswersOf(frags, CachesOf(m, who), request)
    ensures var m := Run(w, size, steps);
      var (c, responders) := (m.nodes[n].cache, CachesOf(m, who));
      var (c', out) := Feed(c, frags, now);
      && (forall i: nat :: i < NumFrag(w.payloads[id]) ==>
        (!Holds(c', id, i) <==> !Holds(c, id, i) && !SomeoneHolds(responders, id, i)))
      && (DeliversOnce(out, LinkMsg(id, w.payloads[id])) <==>
        forall i: u32 :: i in Missing(c[id]) ==> SomeoneHolds(responders, id, i))
      && (DeliversOnce(out, LinkMsg(id, w.payloads[id])) || DeliversNothing(out))
  {
    var m := Run(w, size, steps);
    assert TrueNode(w, m.nodes[n]);
    forall j | 0 <= j < |who|
      ensures id in CachesOf(m, who)[j] ==> EntryOf(CachesOf(m, who)[j][id], w.payloads[id])
    {
      assert TrueNode(w, m.nodes[who[j]]);
    }
    RepairRound(m.nodes[n].cache, id, w.payloads[id], CachesOf(m, who), request, frags, now);
  }
}
