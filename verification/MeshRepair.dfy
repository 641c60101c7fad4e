/**
  Repair as the nodes carry it out themselves: from any reachable state of the mesh, steps are
  constructed by which a node asks, the others answer out of their queues and over the air, and
  the message is handed up.
 */
module MeshRepair {
  import opened Prelude
  import opened Escape94C3
  import opened Rotation
  import opened LinkTypes
  import opened OutgoingQueues
  import opened FragCache
  import opened Fragmentation
  import opened Repair
  import opened LinkProtocol
  import opened Meshes
  import opened MeshHistory

  /** A longer run, in which no client sends anything more, and every clock reads the same all along. */
  predicate Continues(steps: seq<Step>, steps': seq<Step>, clock: nat) {
    && steps <= steps'
    && forall i :: |steps| <= i < |steps'| ==>
      !steps'[i].Send? && (ReadingOf(steps'[i]).Some? ==> ReadingOf(steps'[i]).value == clock)
  }

  /** All that has happened is at node r, and its cache and upcalls are as before. */
  ghost predicate OnlyMoves(m: Mesh, m': Mesh, r: nat) {
    && OnlyAt(m, m', r)
    && m'.nodes[r].cache == m.nodes[r].cache && m'.nodes[r].upcalls == m.nodes[r].upcalls
  }

  ghost predicate OnlyAt(m: Mesh, m': Mesh, r: nat) {
    && r < |m.nodes| == |m'.nodes| && m.air <= m'.air
    && forall j :: 0 <= j < |m.nodes| && j != r ==> m'.nodes[j] == m.nodes[j]
  }

  lemma RunOneMore(w: World, size: nat, steps: seq<Step>, step: Step)
    requires ValidWorld(w)
    ensures Run(w, size, steps + [step]) == Do(w, Run(w, size, steps), step)
  {
    assert (steps + [step])[..|steps|] == steps;
  }

  // ---- one node works off what it has to do ----

  lemma {:induction false} ApplyFirst(q: Queues<LinkFrame>, max: nat, ops: seq<QueueOp>)
    requires ops != []
    ensures ApplyOps(q, max, ops) == ApplyOps(ApplyOp(q, max, ops[0]), max, ops[1..])
  {
    var n := |ops| - 1;
    var fewer, last := ops[..n], ops[n];
    assert ops == fewer + [last];
    ApplyOneMore(q, max, fewer, last);
    if n == 0 {
      assert fewer == [] && ops[1..] == [];
    } else {
      ApplyFirst(q, max, fewer);
      assert ops[1..] == fewer[1..] + [last];
      ApplyOneMore(ApplyOp(q, max, ops[0]), max, fewer[1..], last);
    }
  }

  lemma {:induction false} FinishOps(w: World, size: nat, clock: nat, steps: seq<Step>, r: nat) returns (steps': seq<Step>)
    requires ValidWorld(w) && r < size
    ensures Continues(steps, steps', clock)
    ensures var m, m' := Run(w, size, steps), Run(w, size, steps');
      && OnlyMoves(m, m', r)
      && m'.nodes[r] == m.nodes[r].(ops := [], queues := ApplyOps(m.nodes[r].queues, w.queueMax, m.nodes[r].ops))
    decreases |Run(w, size, steps).nodes[r].ops|
  {
    var node := Run(w, size, steps).nodes[r];
    if node.ops == [] {
      steps' := steps;
    } else {
      RunOneMore(w, size, steps, QueueTurn(r));
      assert Run(w, size, steps + [QueueTurn(r)]).nodes[r] == DoQueueTurn(w, node);
      ApplyFirst(node.queues, w.queueMax, node.ops);
      steps' := FinishOps(w, size, clock, steps + [QueueTurn(r)], r);
    }
  }

  ghost predicate OnAir(w: World, m: Mesh, frame: LinkFrame) {
    Packet(w, frame) in m.air
  }

  ghost predicate AllOnAir(w: World, m: Mesh, queue: seq<Entry<LinkFrame>>) {
    forall e :: e in queue ==> OnAir(w, m, e.frame)
  }

  function ToSend(node: Node): nat {
    2 * (|node.queues.high| + |node.queues.normal|) + if node.hand.Some? then 1 else 0
  }

  predicate Idle(node: Node) {
    node.ops == [] && node.queues == Queues([], []) && node.hand.None?
  }

  lemma {:induction false} EmptyQueues(w: World, size: nat, clock: nat, steps: seq<Step>, r: nat) returns (steps': seq<Step>)
    requires ValidWorld(w) && r < size && Run(w, size, steps).nodes[r].ops == []
    ensures Continues(steps, steps', clock)
    ensures var m, m' := Run(w, size, steps), Run(w, size, steps');
      && OnlyMoves(m, m', r) && Idle(m'.nodes[r])
      && AllOnAir(w, m', m.nodes[r].queues.high) && AllOnAir(w, m', m.nodes[r].queues.normal)
      && (m.nodes[r].hand.Some? ==> OnAir(w, m', m.nodes[r].hand.value))
    decreases ToSend(Run(w, size, steps).nodes[r])
  {
    var m := Run(w, size, steps);
    var node := m.nodes[r];
    if node.hand.Some? {
      RunOneMore(w, size, steps, Transmit(r));
      steps' := EmptyQueues(w, size, clock, steps + [Transmit(r)], r);
    } else if node.queues.high != [] || node.queues.normal != [] {
      RunOneMore(w, size, steps, Take(r));
      steps' := EmptyQueues(w, size, clock, steps + [Take(r)], r);
      forall e | e in node.queues.high ensures OnAir(w, Run(w, size, steps'), e.frame) {
        assert e == node.queues.high[0] || e in node.queues.high[1..];
      }
      forall e | e in node.queues.normal ensures OnAir(w, Run(w, size, steps'), e.frame) {
        assert e == node.queues.normal[0] || e in node.queues.normal[1..];
      }
    } else {
      steps' := steps;
    }
  }

  lemma Settle(w: World, size: nat, clock: nat, steps: seq<Step>, r: nat) returns (steps': seq<Step>)
    requires ValidWorld(w) && r < size
    ensures Continues(steps, steps', clock)
    ensures var m, m' := Run(w, size, steps), Run(w, size, steps');
      && OnlyMoves(m, m', r) && Idle(m'.nodes[r])
      && AllOnAir(w, m', ApplyOps(m.nodes[r].queues, w.queueMax, m.nodes[r].ops).high)
      && AllOnAir(w, m', ApplyOps(m.nodes[r].queues, w.queueMax, m.nodes[r].ops).normal)
  {
    var finished := FinishOps(w, size, clock, steps, r);
    steps' := EmptyQueues(w, size, clock, finished, r);
  }

  // ---- asking ----

  function NeedFrame(reqs: seq<LinkMissing>): LinkFrame {
    Framed(Need(reqs))
  }

  /** A node asks for what is due at this reading, and its request gets on the air. */
  lemma AskOnAir(w: World, size: nat, clock: nat, steps: seq<Step>, n: nat, id: u64, reqs: seq<LinkMissing>)
      returns (steps': seq<Step>)
    requires ValidWorld(w) && n < size
    requires var c := Run(w, size, steps).nodes[n].cache;
      IsRequestFor(reqs, c, clock) && id in c && Due(c[id], clock)
    ensures Continues(steps, steps', clock)
    ensures var m, m' := Run(w, size, steps), Run(w, size, steps');
      && OnlyAt(m, m', n) && OnAir(w, m', NeedFrame(reqs))
      && m'.nodes[n].cache == AfterOverdue(m.nodes[n].cache, clock)
  {
    assert RequestedIn(reqs, id);
    var asked := AskTaken(w, size, clock, steps, n, reqs, MsgId(id, None));
    var e := RequestQueued(w.queueMax, reqs, MsgId(id, None));
    steps' := Settle(w, size, clock, asked, n);
  }

  lemma AskTaken(w: World, size: nat, clock: nat, steps: seq<Step>, n: nat, reqs: seq<LinkMissing>, batchId: MsgId)
      returns (steps': seq<Step>)
    requires ValidWorld(w) && n < size && IsRequestFor(reqs, Run(w, size, steps).nodes[n].cache, clock)
    ensures Continues(steps, steps', clock)
    ensures var m, m' := Run(w, size, steps), Run(w, size, steps');
      && OnlyAt(m, m', n) && m'.nodes[n].cache == AfterOverdue(m.nodes[n].cache, clock)
      && m'.nodes[n].queues == Queues([], []) && m'.nodes[n].ops == AskOps(reqs, batchId)
  {
    var settled := Settle(w, size, clock, steps, n);
    RunOneMore(w, size, settled, Ask(n, clock, reqs, batchId));
    steps' := settled + [Ask(n, clock, reqs, batchId)];
  }

  lemma RequestQueued(max: nat, reqs: seq<LinkMissing>, batchId: MsgId) returns (e: Entry<LinkFrame>)
    requires reqs != []
    ensures e in ApplyOps(Queues([], []), max, AskOps(reqs, batchId)).high && e.frame == NeedFrame(reqs)
  {
    e := Entry(batchId, Plainly, NeedFrame(reqs));
    ApplyOneMore(Queues([], []), max, [], EnqueueOp(batchId, NeedFrame(reqs), RETRY_OPTIONS));
    assert ApplyOps(Queues([], []), max, AskOps(reqs, batchId)).high == [e];
  }

  lemma GapIsAskedFor(c: Cache, reqs: seq<LinkMissing>, id: u64, now: nat)
    requires ValidCache(c) && IsRequestFor(reqs, c, now) && id in c && Due(c[id], now)
    ensures forall j :: 0 <= j < |Missing(c[id])| ==> AsksFor(reqs, id, Missing(c[id])[j])
  {
    assert RequestedIn(reqs, id);
    var q :| 0 <= q < |reqs| && reqs[q].msgid == id;
    assert IsRequest(reqs[q], c, now);
  }

  // ---- answering ----

  /** Everything of one cache that others can get out of it is in the other, too. */
  ghost predicate SameData(c: Cache, c': Cache) {
    c.Keys == c'.Keys && forall id :: id in c ==> Slots(c[id].frags) == Slots(c'[id].frags)
  }

  lemma FulfillKeepsData(c: Cache, missing: LinkMissing)
    requires ValidCache(c)
    ensures SameData(c, Fulfill(c, missing).0)
  {
    if missing.msgid in c {
      AnswerKeepsData(missing.msgid, c[missing.msgid].frags, missing.fragndx);
    }
  }

  lemma {:induction false} NeedKeepsData(c: Cache, reqs: seq<LinkMissing>)
    requires ValidCache(c)
    ensures SameData(c, NeedWork(c, reqs).0)
  {
    if reqs != [] {
      NeedKeepsData(c, reqs[..|reqs| - 1]);
      FulfillKeepsData(NeedWork(c, reqs[..|reqs| - 1]).0, reqs[|reqs| - 1]);
    }
  }

  predicate AsksFor(reqs: seq<LinkMissing>, id: u64, i: u32) {
    exists k :: 0 <= k < |reqs| && reqs[k].msgid == id && i in reqs[k].fragndx
  }

  predicate IsResend(op: QueueOp) {
    && op.EnqueueOp? && op.frame.payload.Some? && op.frame.payload.value.Fragment?
    && op == ResendOp(op.frame.payload.value.frag)
  }

  predicate AllResends(ops: seq<QueueOp>) {
    forall j :: 0 <= j < |ops| ==> IsResend(ops[j])
  }

  function FragOf(op: QueueOp): LinkFrag
    requires IsResend(op)
  {
    op.frame.payload.value.frag
  }

  lemma {:induction false} NeedWorkResends(c: Cache, reqs: seq<LinkMissing>)
    requires ValidCache(c)
    ensures AllResends(NeedWork(c, reqs).1)
  {
    if reqs != [] {
      NeedWorkResends(c, reqs[..|reqs| - 1]);
    }
  }

  lemma {:induction false} HeldIsResent(c: Cache, reqs: seq<LinkMissing>, id: u64, i: u32) returns (j: nat)
    requires ValidCache(c) && AsksFor(reqs, id, i) && Holds(c, id, i)
    ensures j < |NeedWork(c, reqs).1| && IsResend(NeedWork(c, reqs).1[j])
    ensures FragOf(NeedWork(c, reqs).1[j]).msgid == id && FragOf(NeedWork(c, reqs).1[j]).fragndx == i
  {
    var fewer, last := reqs[..|reqs| - 1], reqs[|reqs| - 1];
    var (c', ops) := NeedWork(c, fewer);
    if AsksFor(fewer, id, i) {
      j := HeldIsResent(c, fewer, id, i);
    } else {
      assert last.msgid == id && i in last.fragndx;
      NeedKeepsData(c, fewer);
      assert Slots(c'[id].frags)[i] == Slots(c[id].frags)[i];
      var k := HeldIsAnswered(c', last, i);
      j := |ops| + k;
    }
  }

  lemma HeldIsAnswered(c: Cache, missing: LinkMissing, i: u32) returns (k: nat)
    requires ValidCache(c) && i in missing.fragndx && Holds(c, missing.msgid, i)
    ensures k < |Fulfill(c, missing).1|
    ensures Fulfill(c, missing).1[k].msgid == missing.msgid && Fulfill(c, missing).1[k].fragndx == i
  {
    var held, sent := c[missing.msgid].frags, Fulfill(c, missing).1;
    AnswerSendsHeld(missing.msgid, held, missing.fragndx, i);
    AnswerIsHeldData(missing.msgid, held, missing.fragndx);
    k :| 0 <= k < |sent| && sent[k].fragndx == i;
    assert Answers(sent[k], missing.msgid, held, missing.fragndx);
  }

  function IdsOf(id: u64, indices: seq<u32>): (r: seq<MsgId>)
    ensures |r| == |indices|
  {
    seq(|indices|, i requires 0 <= i < |indices| => MsgId(id, Some(indices[i])))
  }

  /** The slots these requests ask for and this cache holds, in the order of the requests. */
  function HeldAmong(c: Cache, reqs: seq<LinkMissing>): seq<MsgId> {
    if reqs == [] then []
    else
      var last := reqs[|reqs| - 1];
      HeldAmong(c, reqs[..|reqs| - 1]) +
        if last.msgid in c then IdsOf(last.msgid, Retain<u32>(last.fragndx, Held(c[last.msgid].frags))) else []
  }

  /** A request is answered by exactly one high-priority frame for each slot asked for and held, in its order. */
  lemma {:induction false} NeedAnsweredInOrder(c: Cache, reqs: seq<LinkMissing>)
    requires ValidCache(c)
    ensures var ops := NeedWork(c, reqs).1;
      && |ops| == |HeldAmong(c, reqs)|
      && forall j :: 0 <= j < |ops| ==>
        && IsResend(ops[j]) && ops[j].options == OutOptions(High, Plainly)
        && ops[j].msgid == HeldAmong(c, reqs)[j]
        && MsgId(FragOf(ops[j]).msgid, Some(FragOf(ops[j]).fragndx)) == HeldAmong(c, reqs)[j]
  {
    if reqs != [] {
      var fewer, last := reqs[..|reqs| - 1], reqs[|reqs| - 1];
      NeedAnsweredInOrder(c, fewer);
      NeedKeepsData(c, fewer);
      AnsweredInOrder(c, NeedWork(c, fewer).0, last);
    }
  }

  lemma AnsweredInOrder(c: Cache, c': Cache, missing: LinkMissing)
    requires ValidCache(c) && ValidCache(c') && SameData(c, c')
    ensures var sent, id := Fulfill(c', missing).1, missing.msgid;
      var want := if id in c then Retain<u32>(missing.fragndx, Held(c[id].frags)) else [];
      |sent| == |want| && forall j :: 0 <= j < |sent| ==> sent[j].msgid == id && sent[j].fragndx == want[j]
  {
    var sent, id := Fulfill(c', missing).1, missing.msgid;
    if id in c {
      var frags := c'[id].frags;
      AnswerInRequestOrder(id, frags, missing.fragndx);
      AnswerIsHeldData(id, frags, missing.fragndx);
      SameHeld(c[id].frags, frags, missing.fragndx);
      forall j | 0 <= j < |sent| ensures sent[j].msgid == id && sent[j].fragndx == Indices(sent)[j] {
        assert Answers(sent[j], id, frags, missing.fragndx);
      }
    }
  }

  lemma {:induction false} SameHeld(a: seq<CachedFrag>, b: seq<CachedFrag>, want: seq<u32>)
    requires Slots(a) == Slots(b)
    ensures Retain<u32>(want, Held(a)) == Retain<u32>(want, Held(b))
  {
    if want != [] {
      SameHeld(a, b, want[1..]);
      assert want[0] < |a| ==> Slots(a)[want[0]] == Slots(b)[want[0]];
    }
  }

  /** Every queued frame is a resent fragment, under its own id. */
  predicate AllResent(queue: seq<Entry<LinkFrame>>) {
    forall k :: 0 <= k < |queue| ==> IsResent(queue[k])
  }

  predicate IsResent(e: Entry<LinkFrame>) {
    && e.frame.payload.Some? && e.frame.payload.value.Fragment?
    && e == EntryFrom(ResendOp(e.frame.payload.value.frag))
  }

  lemma ResendJoins(q: Queues<LinkFrame>, max: nat, op: QueueOp)
    requires IsResend(op)
    ensures ApplyOp(q, max, op).high ==
      if |q.high| <= max && !HasId(q.high, op.msgid) then q.high + [EntryFrom(op)] else q.high
  {
    RetainAll(q.high, NotBelow(Plainly));
  }

  lemma IdStays(before: seq<Entry<LinkFrame>>, after: seq<Entry<LinkFrame>>, msgid: MsgId)
    requires before <= after && HasId(before, msgid)
    ensures HasId(after, msgid)
  {
    var i :| 0 <= i < |before| && before[i].msgid == msgid;
    assert after[i].msgid == msgid;
  }

  /** Resends only add to the queue. */
  lemma {:induction false} ResendsGrow(q: Queues<LinkFrame>, max: nat, ops: seq<QueueOp>)
    requires AllResends(ops) && AllResent(q.high)
    ensures q.high <= ApplyOps(q, max, ops).high && AllResent(ApplyOps(q, max, ops).high)
  {
    if ops != [] {
      var fewer, op := ops[..|ops| - 1], ops[|ops| - 1];
      ResendsGrow(q, max, fewer);
      ResendJoins(ApplyOps(q, max, fewer), max, op);
      assert IsResend(op) && IsResent(EntryFrom(op));
    }
  }

  predicate HasIds(queue: seq<Entry<LinkFrame>>, ops: seq<QueueOp>) {
    forall j :: 0 <= j < |ops| ==> HasId(queue, ops[j].msgid)
  }

  /** If the queue does not fill up, each resend is queued, or one with its id is. */
  lemma {:induction false} ResendsFit(q: Queues<LinkFrame>, max: nat, ops: seq<QueueOp>)
    requires AllResends(ops) && |ApplyOps(q, max, ops).high| <= max
    ensures HasIds(ApplyOps(q, max, ops).high, ops)
  {
    if ops != [] {
      var before := ApplyOps(q, max, ops[..|ops| - 1]);
      ResendJoins(before, max, ops[|ops| - 1]);
      OfferTaken(before, max, ops[|ops| - 1]);
      ResendsFit(q, max, ops[..|ops| - 1]);
      IdsStay(before.high, ApplyOps(q, max, ops).high, ops);
    }
  }

  lemma IdsStay(before: seq<Entry<LinkFrame>>, after: seq<Entry<LinkFrame>>, ops: seq<QueueOp>)
    requires ops != [] && HasIds(before, ops[..|ops| - 1]) && before <= after
    requires HasId(after, ops[|ops| - 1].msgid)
    ensures HasIds(after, ops)
  {
    forall j | 0 <= j < |ops| - 1 ensures HasId(after, ops[j].msgid) {
      assert HasId(before, ops[..|ops| - 1][j].msgid);
      IdStays(before, after, ops[j].msgid);
    }
  }

  lemma OfferTaken(q: Queues<LinkFrame>, max: nat, op: QueueOp)
    requires IsResend(op) && |q.high| <= max
    ensures HasId(ApplyOp(q, max, op).high, op.msgid)
  {
    ResendJoins(q, max, op);
    var high := ApplyOp(q, max, op).high;
    assert high != q.high ==> high[|q.high|].msgid == op.msgid;
  }

  /** A queued resend of a slot carries that slot. */
  lemma ResentWithId(high: seq<Entry<LinkFrame>>, id: u64, i: u32) returns (p: nat, frag: LinkFrag)
    requires AllResent(high) && HasId(high, MsgId(id, Some(i)))
    ensures p < |high| && high[p].frame == Framed(Fragment(frag)) && frag.msgid == id && frag.fragndx == i
  {
    p :| 0 <= p < |high| && high[p].msgid == MsgId(id, Some(i));
    assert IsResent(high[p]);
    frag := high[p].frame.payload.value.frag;
  }

  lemma ReceivedAsSent(w: World, frame: LinkFrame)
    requires ValidWorld(w)
    ensures Received(w, Packet(w, frame)) == Some(frame)
  {
    UnescapeEscape(w.codec.encode(frame));
  }

  /** Node r can hear the request, and has nothing in hand. */
  ghost predicate ReadyToHear(w: World, m: Mesh, r: nat, reqs: seq<LinkMissing>) {
    && r < |m.nodes| && OnAir(w, m, NeedFrame(reqs))
    && m.nodes[r].ops == [] && m.nodes[r].hand.None? && AllResent(m.nodes[r].queues.high)
  }

  /** Hearing the request gives the answer as work still to be queued. */
  lemma RequestHeard(w: World, size: nat, clock: nat, steps: seq<Step>, r: nat, reqs: seq<LinkMissing>, id: u64, i: u32)
      returns (steps': seq<Step>, j: nat)
    requires ValidWorld(w) && r < size && ReadyToHear(w, Run(w, size, steps), r, reqs)
    requires AsksFor(reqs, id, i) && Holds(Run(w, size, steps).nodes[r].cache, id, i)
    ensures Continues(steps, steps', clock)
    ensures var m, m' := Run(w, size, steps), Run(w, size, steps');
      && OnlyAt(m, m', r) && SameData(m.nodes[r].cache, m'.nodes[r].cache)
      && m'.nodes[r].queues == m.nodes[r].queues && m'.nodes[r].hand.None?
      && Offers(m'.nodes[r].ops, j, id, i)
  {
    var c := Run(w, size, steps).nodes[r].cache;
    steps' := NeedHeard(w, size, clock, steps, r, reqs);
    j := NeedOffers(c, reqs, id, i);
  }

  lemma NeedHeard(w: World, size: nat, clock: nat, steps: seq<Step>, r: nat, reqs: seq<LinkMissing>)
      returns (steps': seq<Step>)
    requires ValidWorld(w) && r < size && ReadyToHear(w, Run(w, size, steps), r, reqs)
    ensures Continues(steps, steps', clock)
    ensures var m, m' := Run(w, size, steps), Run(w, size, steps');
      var (cache, ops) := NeedWork(m.nodes[r].cache, reqs);
      && OnlyAt(m, m', r) && m'.nodes[r].cache == cache && m'.nodes[r].ops == ops
      && m'.nodes[r].queues == m.nodes[r].queues && m'.nodes[r].hand.None?
  {
    var hear := Hear(r, Packet(w, NeedFrame(reqs)), clock);
    ReceivedAsSent(w, NeedFrame(reqs));
    RunOneMore(w, size, steps, hear);
    steps' := steps + [hear];
  }

  lemma NeedOffers(c: Cache, reqs: seq<LinkMissing>, id: u64, i: u32) returns (j: nat)
    requires ValidCache(c) && AsksFor(reqs, id, i) && Holds(c, id, i)
    ensures SameData(c, NeedWork(c, reqs).0) && Offers(NeedWork(c, reqs).1, j, id, i)
  {
    NeedKeepsData(c, reqs);
    NeedWorkResends(c, reqs);
    j := HeldIsResent(c, reqs, id, i);
  }

  predicate Offers(ops: seq<QueueOp>, j: nat, id: u64, i: u32) {
    AllResends(ops) && j < |ops| && ops[j].msgid == MsgId(id, Some(i))
  }

  /** While the queue is over its maximum, it refuses whatever is offered. */
  lemma {:induction false} OffersRefused(w: World, size: nat, clock: nat, steps: seq<Step>, r: nat, j: nat)
      returns (steps': seq<Step>)
    requires ValidWorld(w) && r < size
    requires var node := Run(w, size, steps).nodes[r];
      AllResends(node.ops) && j <= |node.ops| && |node.queues.high| > w.queueMax
    ensures Continues(steps, steps', clock)
    ensures var m, m' := Run(w, size, steps), Run(w, size, steps');
      OnlyMoves(m, m', r) && m'.nodes[r] == m.nodes[r].(ops := m.nodes[r].ops[j..])
    decreases j
  {
    if j == 0 {
      steps' := steps;
    } else {
      var node := Run(w, size, steps).nodes[r];
      assert IsResend(node.ops[0]);
      RunOneMore(w, size, steps, QueueTurn(r));
      RefusedWhenFull(node.queues, w.queueMax, node.ops[0]);
      steps' := OffersRefused(w, size, clock, steps + [QueueTurn(r)], r, j - 1);
    }
  }

  lemma RefusedWhenFull(q: Queues<LinkFrame>, max: nat, op: QueueOp)
    requires IsResend(op) && |q.high| > max
    ensures ApplyOp(q, max, op) == q
  {
  }

  /** A frame taken just before it is offered makes room for any one resend, however late in a long answer it comes. */
  lemma RoomMade(w: World, size: nat, clock: nat, steps: seq<Step>, r: nat, j: nat, id: u64, i: u32) returns (steps': seq<Step>)
    requires ValidWorld(w) && r < size
    requires var node := Run(w, size, steps).nodes[r];
      && Offers(node.ops, j, id, i) && node.hand.None?
      && |node.queues.high| == w.queueMax + 1 && AllResent(node.queues.high)
    ensures Continues(steps, steps', clock)
    ensures var m, m' := Run(w, size, steps), Run(w, size, steps');
      && OnlyMoves(m, m', r) && AllResends(m'.nodes[r].ops)
      && AllResent(m'.nodes[r].queues.high) && HasId(m'.nodes[r].queues.high, MsgId(id, Some(i)))
  {
    var refused := OffersRefused(w, size, clock, steps, r, j);
    steps' := TakeThenTurn(w, size, clock, refused, r);
    var node := Run(w, size, steps).nodes[r];
    OfferAfterTake(node.queues, w.queueMax, node.ops, j, id, i);
  }

  lemma OfferAfterTake(q: Queues<LinkFrame>, max: nat, ops: seq<QueueOp>, j: nat, id: u64, i: u32)
    requires Offers(ops, j, id, i) && |q.high| == max + 1 && AllResent(q.high)
    ensures AllResends(ops[j..][1..])
    ensures var high := ApplyOp(PopFront(q).0, max, ops[j..][0]).high;
      AllResent(high) && HasId(high, MsgId(id, Some(i)))
  {
    var q', op := PopFront(q).0, ops[j];
    assert IsResend(op) && IsResent(EntryFrom(op));
    assert forall k :: 0 <= k < |q'.high| ==> q'.high[k] == q.high[k + 1];
    OfferTaken(q', max, op);
    ResendJoins(q', max, op);
  }

  lemma TakeThenTurn(w: World, size: nat, clock: nat, steps: seq<Step>, r: nat) returns (steps': seq<Step>)
    requires ValidWorld(w) && r < size
    requires Run(w, size, steps).nodes[r].ops != [] && Run(w, size, steps).nodes[r].hand.None?
    ensures Continues(steps, steps', clock)
    ensures var m, m' := Run(w, size, steps), Run(w, size, steps');
      && OnlyMoves(m, m', r) && m'.nodes[r].ops == m.nodes[r].ops[1..]
      && m'.nodes[r].queues == ApplyOp(PopFront(m.nodes[r].queues).0, w.queueMax, m.nodes[r].ops[0])
  {
    RunOneMore(w, size, steps, Take(r));
    RunOneMore(w, size, steps + [Take(r)], QueueTurn(r));
    steps' := steps + [Take(r)] + [QueueTurn(r)];
  }

  /** Once its resend is queued, a copy of slot i gets on the air. */
  lemma QueuedGetsOnAir(w: World, size: nat, clock: nat, steps: seq<Step>, r: nat, id: u64, i: u32)
      returns (steps': seq<Step>, frag: LinkFrag)
    requires ValidWorld(w) && r < size
    requires var node := Run(w, size, steps).nodes[r];
      && AllResends(node.ops) && AllResent(node.queues.high)
      && HasId(ApplyOps(node.queues, w.queueMax, node.ops).high, MsgId(id, Some(i)))
    ensures Continues(steps, steps', clock)
    ensures var m, m' := Run(w, size, steps), Run(w, size, steps');
      OnlyMoves(m, m', r) && OnAir(w, m', Framed(Fragment(frag))) && frag.msgid == id && frag.fragndx == i
  {
    var node := Run(w, size, steps).nodes[r];
    ResendsGrow(node.queues, w.queueMax, node.ops);
    var high := ApplyOps(node.queues, w.queueMax, node.ops).high;
    var p, resent := ResentWithId(high, id, i);
    frag := resent;
    assert high[p] in high;
    steps' := Settle(w, size, clock, steps, r);
  }

  ghost predicate Answered(w: World, m: Mesh, m': Mesh, r: nat, frag: LinkFrag) {
    OnlyAt(m, m', r) && SameData(m.nodes[r].cache, m'.nodes[r].cache) && OnAir(w, m', Framed(Fragment(frag)))
  }

  /**
    A node that holds a requested slot can get a copy of it on the air, however long its whole
    answer is: it hears the request once, and once more if that filled its queue.
   */
  lemma AnswerOnAir(w: World, size: nat, clock: nat, steps: seq<Step>, r: nat, reqs: seq<LinkMissing>, id: u64, i: u32)
      returns (steps': seq<Step>, frag: LinkFrag)
    requires ValidWorld(w) && r < size && OnAir(w, Run(w, size, steps), NeedFrame(reqs))
    requires AsksFor(reqs, id, i) && Holds(Run(w, size, steps).nodes[r].cache, id, i)
    ensures Continues(steps, steps', clock)
    ensures Answered(w, Run(w, size, steps), Run(w, size, steps'), r, frag) && frag.msgid == id && frag.fragndx == i
  {
    var heard, j := AnswerBegun(w, size, clock, steps, r, reqs, id, i);
    var node := Run(w, size, heard).nodes[r];
    if |ApplyOps(node.queues, w.queueMax, node.ops).high| <= w.queueMax {
      ResendsFit(node.queues, w.queueMax, node.ops);
      steps', frag := QueuedGetsOnAir(w, size, clock, heard, r, id, i);
    } else {
      steps', frag := AnswerWhenFull(w, size, clock, heard, r, reqs, id, i);
    }
  }

  lemma AnswerBegun(w: World, size: nat, clock: nat, steps: seq<Step>, r: nat, reqs: seq<LinkMissing>, id: u64, i: u32)
      returns (steps': seq<Step>, j: nat)
    requires ValidWorld(w) && r < size && OnAir(w, Run(w, size, steps), NeedFrame(reqs))
    requires AsksFor(reqs, id, i) && Holds(Run(w, size, steps).nodes[r].cache, id, i)
    ensures Continues(steps, steps', clock)
    ensures var m, m' := Run(w, size, steps), Run(w, size, steps');
      && OnlyAt(m, m', r) && SameData(m.nodes[r].cache, m'.nodes[r].cache)
      && m'.nodes[r].queues == Queues([], []) && m'.nodes[r].hand.None?
      && Offers(m'.nodes[r].ops, j, id, i)
  {
    var settled := Settle(w, size, clock, steps, r);
    steps', j := RequestHeard(w, size, clock, settled, r, reqs, id, i);
  }

  lemma AnswerWhenFull(w: World, size: nat, clock: nat, steps: seq<Step>, r: nat, reqs: seq<LinkMissing>, id: u64, i: u32)
      returns (steps': seq<Step>, frag: LinkFrag)
    requires ValidWorld(w) && r < size && OnAir(w, Run(w, size, steps), NeedFrame(reqs))
    requires AsksFor(reqs, id, i) && Holds(Run(w, size, steps).nodes[r].cache, id, i)
    requires var node := Run(w, size, steps).nodes[r];
      && AllResends(node.ops) && node.hand.None? && node.queues == Queues([], [])
      && |ApplyOps(node.queues, w.queueMax, node.ops).high| > w.queueMax
    ensures Continues(steps, steps', clock)
    ensures Answered(w, Run(w, size, steps), Run(w, size, steps'), r, frag) && frag.msgid == id && frag.fragndx == i
  {
    var node := Run(w, size, steps).nodes[r];
    ResendsGrow(node.queues, w.queueMax, node.ops);
    ResendsStop(node.queues, w.queueMax, node.ops);
    var full := FinishOps(w, size, clock, steps, r);
    var heard, j := RequestHeard(w, size, clock, full, r, reqs, id, i);
    var offered := RoomMade(w, size, clock, heard, r, j, id, i);
    var last := Run(w, size, offered).nodes[r];
    ResendsGrow(last.queues, w.queueMax, last.ops);
    IdStays(last.queues.high, ApplyOps(last.queues, w.queueMax, last.ops).high, MsgId(id, Some(i)));
    steps', frag := QueuedGetsOnAir(w, size, clock, offered, r, id, i);
  }

  lemma {:induction false} ResendsStop(q: Queues<LinkFrame>, max: nat, ops: seq<QueueOp>)
    requires AllResends(ops) && |q.high| <= max + 1
    ensures |ApplyOps(q, max, ops).high| <= max + 1
  {
    if ops != [] {
      var fewer, op := ops[..|ops| - 1], ops[|ops| - 1];
      ResendsStop(q, max, fewer);
      ResendJoins(ApplyOps(q, max, fewer), max, op);
    }
  }

  // ---- hearing the answer ----

  lemma FragmentHeard(w: World, size: nat, clock: nat, steps: seq<Step>, n: nat, frag: LinkFrag)
      returns (steps': seq<Step>)
    requires ValidWorld(w) && n < size && OnAir(w, Run(w, size, steps), Framed(Fragment(frag)))
    ensures Continues(steps, steps', clock)
    ensures var m, m' := Run(w, size, steps), Run(w, size, steps');
      && OnlyAt(m, m', n) && m'.nodes[n].cache == Add(m.nodes[n].cache, frag, true, clock).0
  {
    var settled := Settle(w, size, clock, steps, n);
    ReceivedAsSent(w, Framed(Fragment(frag)));
    RunOneMore(w, size, settled, Hear(n, Packet(w, Framed(Fragment(frag))), clock));
    steps' := settled + [Hear(n, Packet(w, Framed(Fragment(frag))), clock)];
  }

  ghost predicate CompletedIffWhole(c: Cache, id: u64) {
    id in c && (c[id].completed <==> Whole(c[id]))
  }

  lemma SlotFilled(w: World, m: Mesh, n: nat, frag: LinkFrag, now: nat)
    requires ValidWorld(w) && TrueMesh(w, m) && n < |m.nodes| && OnAir(w, m, Framed(Fragment(frag)))
    requires CompletedIffWhole(m.nodes[n].cache, frag.msgid)
    ensures var c, c' := m.nodes[n].cache, Add(m.nodes[n].cache, frag, true, now).0;
      && CompletedIffWhole(c', frag.msgid)
      && forall i: nat :: Holds(c', frag.msgid, i) <==> Holds(c, frag.msgid, i) || i == frag.fragndx
  {
    assert TrueNode(w, m.nodes[n]);
    ReceivedAsSent(w, Framed(Fragment(frag)));
    PacketsAreReceived(w, Packet(w, Framed(Fragment(frag))));
    var c, payload := m.nodes[n].cache, w.payloads[frag.msgid];
    assert CopyOf(frag, frag.msgid, payload);
    HearFills(c, frag.msgid, payload, frag, now);
    if Whole(c[frag.msgid]) {
      var c' := Add(c, frag, true, now).0;
      forall i | 0 <= i < |c'[frag.msgid].frags| ensures c'[frag.msgid].frags[i].data != [] {
        assert Holds(c, frag.msgid, i) ==> Holds(c', frag.msgid, i);
      }
    }
  }

  // ---- slot by slot ----

  predicate OtherHolds(m: Mesh, n: nat, id: u64, i: nat) {
    exists r :: 0 <= r < |m.nodes| && r != n && Holds(m.nodes[r].cache, id, i)
  }

  /** Every slot in the gap is held by some other node. */
  predicate Supplied(m: Mesh, n: nat, id: u64, gap: seq<u32>) {
    forall j :: 0 <= j < |gap| ==> OtherHolds(m, n, id, gap[j])
  }

  lemma StaysSupplied(m: Mesh, m': Mesh, n: nat, r: nat, id: u64, gap: seq<u32>)
    requires Supplied(m, n, id, gap) && OnlyAt(m, m', r)
    requires r == n || SameData(m.nodes[r].cache, m'.nodes[r].cache)
    ensures Supplied(m', n, id, gap)
  {
    forall j | 0 <= j < |gap| ensures OtherHolds(m', n, id, gap[j]) {
      assert OtherHolds(m, n, id, gap[j]);
      var k :| 0 <= k < |m.nodes| && k != n && Holds(m.nodes[k].cache, id, gap[j]);
      if k == r {
        assert Slots(m.nodes[r].cache[id].frags)[gap[j]] == Slots(m'.nodes[r].cache[id].frags)[gap[j]];
      }
      assert Holds(m'.nodes[k].cache, id, gap[j]);
    }
  }

  /** The request is on the air, and what is in the gap can be had by answers to it. */
  ghost predicate UnderRepair(w: World, m: Mesh, n: nat, reqs: seq<LinkMissing>, id: u64, gap: seq<u32>) {
    && n < |m.nodes| && OnAir(w, m, NeedFrame(reqs)) && Supplied(m, n, id, gap)
    && CompletedIffWhole(m.nodes[n].cache, id)
  }

  ghost predicate HoldsMore(c: Cache, c': Cache, id: u64) {
    forall i: nat :: Holds(c, id, i) ==> Holds(c', id, i)
  }

  predicate HoldsFrom(c: Cache, id: u64, gap: seq<u32>, k: nat) {
    forall j :: k <= j < |gap| ==> Holds(c, id, gap[j])
  }

  /** A round trip that fetches one slot. */
  lemma FetchSlot(
      w: World, size: nat, clock: nat, steps: seq<Step>, n: nat, reqs: seq<LinkMissing>, id: u64, gap: seq<u32>, j: nat)
      returns (steps': seq<Step>)
    requires ValidWorld(w) && n < size && j < |gap| && AsksFor(reqs, id, gap[j])
    requires UnderRepair(w, Run(w, size, steps), n, reqs, id, gap)
    ensures Continues(steps, steps', clock) && UnderRepair(w, Run(w, size, steps'), n, reqs, id, gap)
    ensures var c, c' := Run(w, size, steps).nodes[n].cache, Run(w, size, steps').nodes[n].cache;
      HoldsMore(c, c', id) && Holds(c', id, gap[j])
  {
    var m := Run(w, size, steps);
    assert OtherHolds(m, n, id, gap[j]);
    var r :| 0 <= r < |m.nodes| && r != n && Holds(m.nodes[r].cache, id, gap[j]);
    var answered, frag := AnswerOnAir(w, size, clock, steps, r, reqs, id, gap[j]);
    var mid := Run(w, size, answered);
    StaysSupplied(m, mid, n, r, id, gap);
    SlotFilled(w, mid, n, frag, clock);
    steps' := FragmentHeard(w, size, clock, answered, n, frag);
    StaysSupplied(mid, Run(w, size, steps'), n, n, id, gap);
  }

  lemma {:induction false} FetchFrom(
      w: World, size: nat, clock: nat, steps: seq<Step>, n: nat, reqs: seq<LinkMissing>, id: u64, gap: seq<u32>, k: nat)
      returns (steps': seq<Step>)
    requires ValidWorld(w) && n < size && k <= |gap| && forall j :: 0 <= j < |gap| ==> AsksFor(reqs, id, gap[j])
    requires UnderRepair(w, Run(w, size, steps), n, reqs, id, gap)
    ensures Continues(steps, steps', clock) && UnderRepair(w, Run(w, size, steps'), n, reqs, id, gap)
    ensures var c, c' := Run(w, size, steps).nodes[n].cache, Run(w, size, steps').nodes[n].cache;
      HoldsMore(c, c', id) && HoldsFrom(c', id, gap, k)
    decreases |gap| - k
  {
    if k == |gap| {
      steps' := steps;
    } else {
      var fetched := FetchSlot(w, size, clock, steps, n, reqs, id, gap, k);
      steps' := FetchFrom(w, size, clock, fetched, n, reqs, id, gap, k + 1);
      ContinuesOn(steps, fetched, steps', clock);
      OneMoreHeld(Run(w, size, steps).nodes[n].cache, Run(w, size, fetched).nodes[n].cache,
        Run(w, size, steps').nodes[n].cache, id, gap, k);
    }
  }

  lemma OneMoreHeld(a: Cache, b: Cache, c: Cache, id: u64, gap: seq<u32>, k: nat)
    requires k < |gap| && HoldsMore(a, b, id) && HoldsMore(b, c, id)
    requires Holds(b, id, gap[k]) && HoldsFrom(c, id, gap, k + 1)
    ensures HoldsMore(a, c, id) && HoldsFrom(c, id, gap, k)
  {
  }

  lemma ContinuesOn(a: seq<Step>, b: seq<Step>, c: seq<Step>, clock: nat)
    requires Continues(a, b, clock) && Continues(b, c, clock)
    ensures Continues(a, c, clock)
  {
  }

  /** The requests that are due at a clock reading, below an id. */
  lemma {:induction false} RequestsBelow(c: Cache, now: nat, n: nat) returns (reqs: seq<LinkMissing>)
    requires ValidCache(c) && n <= 0x1_0000_0000_0000_0000
    ensures forall k, l :: 0 <= k < l < |reqs| ==> reqs[k].msgid < reqs[l].msgid
    ensures forall k :: 0 <= k < |reqs| ==> reqs[k].msgid < n && IsRequest(reqs[k], c, now)
    ensures forall id :: id in c && id < n && Due(c[id], now) ==> RequestedIn(reqs, id)
  {
    if n == 0 {
      reqs := [];
    } else {
      var id: u64 := n - 1;
      var fewer := RequestsBelow(c, now, n - 1);
      reqs := fewer;
      if id in c && Due(c[id], now) {
        reqs := fewer + [LinkMissing(id, Missing(c[id]))];
        assert reqs[|fewer|].msgid == id;
        forall x | x in c && x < id && Due(c[x], now) ensures RequestedIn(reqs, x) {
          assert RequestedIn(fewer, x);
          var k :| 0 <= k < |fewer| && fewer[k].msgid == x;
          assert reqs[k].msgid == x;
        }
      }
    }
  }

  /**
    Repair can always succeed: from every reachable state in which a request for a message is due at
    the clock and other nodes between them hold what is missing, some continuation, in which no
    client sends anything, completes the message and hands its payload up, once. It takes no
    longer than the clock stands still, so a steady clock stays steady.
   */
  lemma RepairCompletes(w: World, size: nat, clock: nat, steps: seq<Step>, n: nat, id: u64) returns (steps': seq<Step>)
    requires ValidWorld(w) && n < size
    requires var m := Run(w, size, steps);
      && id in m.nodes[n].cache && !Whole(m.nodes[n].cache[id])
      && m.nodes[n].cache[id].lasttry + OVERDUE_SECS <= clock < m.nodes[n].cache[id].created + MAX_AGE_SECS
      && (forall i: nat :: i < |m.nodes[n].cache[id].frags| && !Holds(m.nodes[n].cache, id, i) ==>
        OtherHolds(m, n, id, i))
    ensures Continues(steps, steps', clock)
    ensures Steady(steps) && ReadAtMost(steps, clock) ==> Steady(steps')
    ensures CountOf(Run(w, size, steps).nodes[n].upcalls, id) == 0
    ensures var node' := Run(w, size, steps').nodes[n];
      && id in node'.cache && node'.cache[id].completed
      && CountOf(node'.upcalls, id) == 1 && LinkMsg(id, w.payloads[id]) in node'.upcalls
  {
    var m := Run(w, size, steps);
    var c, gap := m.nodes[n].cache, Missing(m.nodes[n].cache[id]);
    assert TrueNode(w, m.nodes[n]);
    var reqs := RequestsBelow(c, clock, 0x1_0000_0000_0000_0000);
    assert IsRequestFor(reqs, c, clock);
    var asked := AskOnAir(w, size, clock, steps, n, id, reqs);
    GapIsAskedFor(c, reqs, id, clock);
    GapSupplied(m, n, id);
    StaysSupplied(m, Run(w, size, asked), n, n, id, gap);
    steps' := FetchFrom(w, size, clock, asked, n, reqs, id, gap, 0);
    ContinuesOn(steps, asked, steps', clock);
    StaysSteady(steps, steps', clock);
    GapFilled(w, c, Run(w, size, asked).nodes[n].cache, Run(w, size, steps').nodes[n], id, clock);
  }

  lemma StaysSteady(steps: seq<Step>, steps': seq<Step>, clock: nat)
    requires Continues(steps, steps', clock)
    ensures Steady(steps) && ReadAtMost(steps, clock) ==> Steady(steps')
  {
    if Steady(steps) && ReadAtMost(steps, clock) {
      forall i, j | 0 <= i < j < |steps'| && ReadingOf(steps'[i]).Some? && ReadingOf(steps'[j]).Some?
        ensures ReadingOf(steps'[i]).value <= ReadingOf(steps'[j]).value
      {
        assert i < |steps| ==> steps'[i] == steps[i];
        assert j < |steps| ==> steps'[j] == steps[j];
      }
    }
  }

  lemma GapSupplied(m: Mesh, n: nat, id: u64)
    requires n < |m.nodes| && ValidCache(m.nodes[n].cache) && id in m.nodes[n].cache
    requires forall i: nat :: i < |m.nodes[n].cache[id].frags| && !Holds(m.nodes[n].cache, id, i) ==>
      OtherHolds(m, n, id, i)
    ensures Supplied(m, n, id, Missing(m.nodes[n].cache[id]))
  {
  }

  lemma GapFilled(w: World, c: Cache, asked: Cache, node: Node, id: u64, now: nat)
    requires TrueCache(w, c) && ValidCache(c) && id in c && asked == AfterOverdue(c, now) && TrueNode(w, node)
    requires CompletedIffWhole(node.cache, id)
    requires HoldsMore(asked, node.cache, id) && HoldsFrom(node.cache, id, Missing(c[id]), 0)
    ensures node.cache[id].completed
    ensures CountOf(node.upcalls, id) == 1 && LinkMsg(id, w.payloads[id]) in node.upcalls
  {
    assert EntryOf(c[id], w.payloads[id]) && EntryOf(node.cache[id], w.payloads[id]);
    forall i | 0 <= i < |node.cache[id].frags| ensures node.cache[id].frags[i].data != [] {
      if c[id].frags[i].data == [] {
        assert i in Missing(c[id]);
      } else {
        assert Holds(asked, id, i);
      }
      assert Holds(node.cache, id, i);
    }
    CountedIsThere(node.upcalls, id);
  }

  lemma {:induction false} CountedIsThere(upcalls: seq<LinkMsg>, id: u64)
    requires CountOf(upcalls, id) > 0
    ensures exists msg :: msg in upcalls && msg.msgid == id
  {
    if upcalls[|upcalls| - 1].msgid != id {
      CountedIsThere(upcalls[..|upcalls| - 1], id);
    }
  }
}
