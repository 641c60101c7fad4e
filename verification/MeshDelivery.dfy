/** From one client to another: what is sent once can reach every other node, from every reachable state. */
module MeshDelivery {
  import opened Prelude
  import opened LinkTypes
  import opened OutgoingQueues
  import opened FragCache
  import opened Fragmentation
  import opened Repair
  import opened LinkProtocol
  import opened Meshes
  import opened MeshHistory
  import opened MeshRepair

  /** A client at node a hands a message over, when the node has nothing else to do. */
  lemma SendTaken(w: World, size: nat, clock: nat, steps: seq<Step>, a: nat, msgid: MsgId, options: OutOptions)
      returns (idle: seq<Step>)
    requires ValidWorld(w) && a < size && msgid.base in w.payloads
    ensures Continues(steps, idle, clock)
    ensures var m, m' := Run(w, size, steps), Run(w, size, idle + [Send(a, msgid, options, clock)]);
      var (cache, ops) := SendWork(m.nodes[a].cache, msgid, w.payloads[msgid.base], options, clock);
      && OnlyAt(m, m', a) && m'.nodes[a].cache == cache && m'.nodes[a].ops == ops
      && m'.nodes[a].queues == Queues([], []) && m'.nodes[a].upcalls == m.nodes[a].upcalls
  {
    idle := Settle(w, size, clock, steps, a);
    RunOneMore(w, size, idle, Send(a, msgid, options, clock));
  }

  /** The first frame of any send gets on the air. */
  lemma FirstFrameOnAir(w: World, size: nat, clock: nat, steps: seq<Step>, a: nat, msgid: MsgId, options: OutOptions)
      returns (steps': seq<Step>, e: Entry<LinkFrame>)
    requires ValidWorld(w) && a < size && msgid.base in w.payloads
    ensures OneSend(steps, steps', a, msgid, options, clock)
    ensures var m, m', payload := Run(w, size, steps), Run(w, size, steps'), w.payloads[msgid.base];
      && OnlyAt(m, m', a) && m'.nodes[a].upcalls == m.nodes[a].upcalls
      && m'.nodes[a].cache == SendWork(m.nodes[a].cache, msgid, payload, options, clock).0
      && OnAir(w, m', if |payload| > LINK_FRAG_THRESH then Framed(Fragment(OriginalFrag(msgid.base, payload, 0)))
                      else Framed(Complete(LinkMsg(msgid.base, payload))))
  {
    var idle := SendTaken(w, size, clock, steps, a, msgid, options);
    var sent := idle + [Send(a, msgid, options, clock)];
    e := FirstIsQueued(w.queueMax, Run(w, size, steps).nodes[a].cache, msgid, w.payloads[msgid.base], options, clock);
    steps' := Settle(w, size, clock, sent, a);
    SendIsOne(steps, idle, steps', a, msgid, options, clock);
  }

  lemma SendIsOne(
      steps: seq<Step>, idle: seq<Step>, steps': seq<Step>, a: nat, msgid: MsgId, options: OutOptions, clock: nat)
    requires Continues(steps, idle, clock) && Continues(idle + [Send(a, msgid, options, clock)], steps', clock)
    ensures OneSend(steps, steps', a, msgid, options, clock)
  {
    var sent := idle + [Send(a, msgid, options, clock)];
    assert forall i :: 0 <= i < |sent| ==> steps'[i] == sent[i];
    assert OnlySend(steps, steps', |idle|, Send(a, msgid, options, clock));
  }

  /** A run that goes on with one message sent by a client, and with all readings at this clock. */
  predicate OneSend(steps: seq<Step>, steps': seq<Step>, a: nat, msgid: MsgId, options: OutOptions, clock: nat) {
    && steps <= steps'
    && (exists k :: |steps| <= k < |steps'| && OnlySend(steps, steps', k, Send(a, msgid, options, clock)))
    && forall i :: |steps| <= i < |steps'| && ReadingOf(steps'[i]).Some? ==> ReadingOf(steps'[i]).value == clock
  }

  predicate OnlySend(steps: seq<Step>, steps': seq<Step>, k: nat, send: Step)
    requires k < |steps'|
  {
    steps'[k] == send && forall i :: |steps| <= i < |steps'| && i != k ==> !steps'[i].Send?
  }

  lemma FirstIsQueued(max: nat, c: Cache, msgid: MsgId, payload: seq<byte>, options: OutOptions, now: nat)
      returns (e: Entry<LinkFrame>)
    requires Sendable(payload)
    ensures e in Pick(ApplyOps(Queues([], []), max, SendWork(c, msgid, payload, options, now).1), options.priority)
    ensures e.frame == if |payload| > LINK_FRAG_THRESH then Framed(Fragment(OriginalFrag(msgid.base, payload, 0)))
                       else Framed(Complete(LinkMsg(msgid.base, payload)))
  {
    var ops := SendWork(c, msgid, payload, options, now).1;
    var queue := Pick(ApplyOps(Queues([], []), max, ops), options.priority);
    if |payload| > LINK_FRAG_THRESH {
      FragmentsQueued(Queues([], []), max, msgid.base, payload, options);
      e := EntryFrom(ops[0]);
      assert queue[0] == e;
    } else {
      ApplyOneMore(Queues([], []), max, [], ops[0]);
      e := EntryFrom(ops[0]);
      assert queue[0] == e;
    }
  }

  /** From every reachable state, a message of up to 200 bytes sent at one node can reach the client of any other. */
  lemma ShortMessageReaches(
      w: World, size: nat, clock: nat, steps: seq<Step>, a: nat, b: nat, msgid: MsgId, options: OutOptions)
      returns (steps': seq<Step>)
    requires ValidWorld(w) && a < size && b < size && a != b
    requires msgid.base in w.payloads && |w.payloads[msgid.base]| <= 200
    ensures OneSend(steps, steps', a, msgid, options, clock)
    ensures Run(w, size, steps').nodes[b].upcalls
      == Run(w, size, steps).nodes[b].upcalls + [LinkMsg(msgid.base, w.payloads[msgid.base])]
  {
    var frame := Framed(Complete(LinkMsg(msgid.base, w.payloads[msgid.base])));
    var sent, e := FirstFrameOnAir(w, size, clock, steps, a, msgid, options);
    var ready := Settle(w, size, clock, sent, b);
    ReceivedAsSent(w, frame);
    RunOneMore(w, size, ready, Hear(b, Packet(w, frame), clock));
    steps' := ready + [Hear(b, Packet(w, frame), clock)];
    OneSendGoesOn(steps, sent, steps', a, msgid, options, clock);
  }

  lemma OneSendGoesOn(
      a: seq<Step>, b: seq<Step>, c: seq<Step>, n: nat, msgid: MsgId, options: OutOptions, clock: nat)
    requires OneSend(a, b, n, msgid, options, clock) && Continues(b, c, clock)
    ensures OneSend(a, c, n, msgid, options, clock)
  {
    var k :| |a| <= k < |b| && OnlySend(a, b, k, Send(n, msgid, options, clock));
    assert forall i :: |a| <= i < |b| ==> c[i] == b[i];
    assert OnlySend(a, c, k, Send(n, msgid, options, clock));
  }

  /** A node that does not know the message hears its first fragment, and may ask for the rest from a minute later on. */
  lemma FirstFragmentHeard(
      w: World, size: nat, clock: nat, steps: seq<Step>, a: nat, b: nat, msgid: MsgId, options: OutOptions)
      returns (steps': seq<Step>)
    requires ValidWorld(w) && a < size && b < size && a != b && IsMessage(w, msgid.base)
    requires msgid.base !in Run(w, size, steps).nodes[b].cache
    ensures OneSend(steps, steps', a, msgid, options, clock)
    ensures var m', id := Run(w, size, steps'), msgid.base;
      && id in m'.nodes[b].cache && !Whole(m'.nodes[b].cache[id])
      && m'.nodes[b].cache[id].created == clock && m'.nodes[b].cache[id].lasttry == clock
      && forall i: nat :: i < NumFrag(w.payloads[id]) ==> Holds(m'.nodes[a].cache, id, i)
  {
    var id, payload := msgid.base, w.payloads[msgid.base];
    var frag := OriginalFrag(id, payload, 0);
    var sent, e := FirstFrameOnAir(w, size, clock, steps, a, msgid, options);
    steps' := FragmentHeard(w, size, clock, sent, b, frag);
    OneSendGoesOn(steps, sent, steps', a, msgid, options, clock);
    var c := Run(w, size, steps).nodes[a].cache;
    assert TrueNode(w, Run(w, size, steps).nodes[a]);
    assert id in c ==> EntryOf(c[id], payload);
    OwnChunksAreHeld(c, id, payload, clock);
    SenderHoldsAll(KeepOwn(c, id, payload, NumFrag(payload), clock), id, payload);
    NotYetWhole(Run(w, size, steps).nodes[b].cache, id, payload, clock);
  }

  lemma SenderHoldsAll(c: Cache, id: u64, payload: seq<byte>)
    requires id in c && Slots(c[id].frags) == Chunks(payload)
    ensures forall i: nat :: i < NumFrag(payload) ==> Holds(c, id, i)
  {
    forall i: nat | i < NumFrag(payload) ensures Holds(c, id, i) {
      assert Slots(c[id].frags)[i] == Chunk(payload, i);
      ChunkSizes(payload, i);
    }
  }

  lemma NotYetWhole(c: Cache, id: u64, payload: seq<byte>, now: nat)
    requires Fragmented(payload) && id !in c
    ensures var c' := Add(c, OriginalFrag(id, payload, 0), true, now).0;
      id in c' && !Whole(c'[id]) && c'[id].created == now && c'[id].lasttry == now
  {
    var c' := Add(c, OriginalFrag(id, payload, 0), true, now).0;
    assert NumFrag(payload) >= 2 && c'[id].frags[1].data == [];
  }

  /**
    The same for longer messages: from every reachable state, a message sent once at one node, at a
    clock, can reach the client of any other node that does not know it yet, whole and once, with
    one request a minute later, even if the queues refuse most of its fragments.
   */
  lemma LongMessageReaches(
      w: World, size: nat, clock: nat, steps: seq<Step>, a: nat, b: nat, msgid: MsgId, options: OutOptions)
      returns (heard: seq<Step>, steps': seq<Step>)
    requires ValidWorld(w) && a < size && b < size && a != b && IsMessage(w, msgid.base)
    requires msgid.base !in Run(w, size, steps).nodes[b].cache
    ensures OneSend(steps, heard, a, msgid, options, clock) && Continues(heard, steps', clock + 60)
    ensures CountOf(Run(w, size, steps).nodes[b].upcalls, msgid.base) == 0
    ensures CountOf(Run(w, size, steps').nodes[b].upcalls, msgid.base) == 1
    ensures LinkMsg(msgid.base, w.payloads[msgid.base]) in Run(w, size, steps').nodes[b].upcalls
  {
    var id := msgid.base;
    assert TrueNode(w, Run(w, size, steps).nodes[b]);
    heard := FirstFragmentHeard(w, size, clock, steps, a, b, msgid, options);
    var m := Run(w, size, heard);
    assert TrueNode(w, m.nodes[b]);
    assert EntryOf(m.nodes[b].cache[id], w.payloads[id]);
    forall i: nat | i < |m.nodes[b].cache[id].frags| ensures OtherHolds(m, b, id, i) {
      assert Holds(m.nodes[a].cache, id, i);
    }
    steps' := RepairCompletes(w, size, clock + 60, heard, b, id);
  }
}
