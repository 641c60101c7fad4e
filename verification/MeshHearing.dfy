/** What one hearing does at a node in any run of the mesh: what goes to the client, and what leaves the queues. */
module MeshHearing {
  import opened Prelude
  import opened LinkTypes
  import opened OutgoingQueues
  import opened FragCache
  import opened LinkProtocol
  import opened Meshes

  ghost predicate CanHear(w: World, m: Mesh, n: nat, frame: LinkFrame) {
    n < |m.nodes| && m.nodes[n].ops == [] && Packet(w, frame) in m.air
  }

  lemma RunAppend(w: World, size: nat, steps: seq<Step>, step: Step)
    requires ValidWorld(w)
    ensures Run(w, size, steps + [step]) == Do(w, Run(w, size, steps), step)
  {
    assert (steps + [step])[..|steps|] == steps;
  }

  lemma HearsFrame(w: World, size: nat, steps: seq<Step>, n: nat, frame: LinkFrame, now: nat)
    requires ValidWorld(w) && CanHear(w, Run(w, size, steps), n, frame)
    ensures Run(w, size, steps + [Hear(n, Packet(w, frame), now)]).nodes[n]
      == DoHear(Run(w, size, steps).nodes[n], frame, now)
  {
    RunAppend(w, size, steps, Hear(n, Packet(w, frame), now));
    Escape94C3.UnescapeEscape(w.codec.encode(frame));
    assert Received(w, Packet(w, frame)) == Some(frame);
  }

  /** From every reachable state, a complete message that a node hears goes to its client, each time it is heard. */
  lemma CompleteIsHandedUp(w: World, size: nat, steps: seq<Step>, n: nat, frame: LinkFrame, msg: LinkMsg, now: nat)
    requires ValidWorld(w) && CanHear(w, Run(w, size, steps), n, frame) && frame.payload == Some(Complete(msg))
    ensures Run(w, size, steps + [Hear(n, Packet(w, frame), now)]).nodes[n].upcalls
      == Run(w, size, steps).nodes[n].upcalls + [msg]
  {
    HearsFrame(w, size, steps, n, frame, now);
  }

  /** A fragment gives the client its payload when it completes the message, and any other frame gives it nothing. */
  lemma OthersHandUpWhenComplete(w: World, size: nat, steps: seq<Step>, n: nat, frame: LinkFrame, now: nat)
    requires ValidWorld(w) && CanHear(w, Run(w, size, steps), n, frame)
    requires frame.payload.None? || !frame.payload.value.Complete?
    ensures var node := Run(w, size, steps).nodes[n];
      var node' := Run(w, size, steps + [Hear(n, Packet(w, frame), now)]).nodes[n];
      if frame.payload.Some? && frame.payload.value.Fragment? then
        var id := frame.payload.value.frag.msgid;
        && id in w.payloads && id in node'.cache
        && node'.upcalls == node.upcalls +
          if node'.cache[id].completed && !(id in node.cache && node.cache[id].completed)
          then [LinkMsg(id, w.payloads[id])] else []
      else node'.upcalls == node.upcalls
  {
    var node := Run(w, size, steps).nodes[n];
    HearsFrame(w, size, steps, n, frame, now);
    assert TrueNode(w, node);
    assert node.upcalls + [] == node.upcalls;
    if frame.payload.Some? && frame.payload.value.Fragment? {
      PacketsAreReceived(w, Packet(w, frame));
      Escape94C3.UnescapeEscape(w.codec.encode(frame));
      AddIsTrue(w, node.cache, frame.payload.value.frag, true, now);
    }
  }

  // ---- every frame is queued under its own id ----

  /** A fragment is queued under its message and index, a complete message under the base of its id, all in a frame of ours. */
  predicate Named(msgid: MsgId, frame: LinkFrame) {
    && frame.magic == 0x48534F4E && frame.version == 1
    && match frame.payload
       case Some(Fragment(frag)) => msgid == MsgId(frag.msgid, Some(frag.fragndx))
       case Some(Complete(msg)) => msgid.base == msg.msgid
       case _ => true
  }

  predicate NamedOp(op: QueueOp) {
    op.EnqueueOp? ==> Named(op.msgid, op.frame)
  }

  ghost predicate NamedQueue(queue: seq<Entry<LinkFrame>>) {
    forall e :: e in queue ==> Named(e.msgid, e.frame)
  }

  ghost predicate NamedNode(node: Node) {
    && NamedQueue(node.queues.normal) && NamedQueue(node.queues.high)
    && forall i :: 0 <= i < |node.ops| ==> NamedOp(node.ops[i])
  }

  lemma {:induction false} NeedWorkIsNamed(c: Cache, missing: seq<LinkMissing>)
    requires ValidCache(c)
    ensures forall i :: 0 <= i < |NeedWork(c, missing).1| ==> NamedOp(NeedWork(c, missing).1[i])
  {
    if missing != [] {
      NeedWorkIsNamed(c, missing[..|missing| - 1]);
    }
  }

  lemma TurnIsNamed(w: World, node: Node)
    requires NamedNode(node) && node.ops != []
    ensures NamedNode(DoQueueTurn(w, node))
  {
    assert NamedOp(node.ops[0]);
    forall i | 0 <= i < |node.ops| - 1 ensures NamedOp(node.ops[1..][i]) {
      assert NamedOp(node.ops[i + 1]);
    }
  }

  lemma StepIsNamed(w: World, m: Mesh, step: Step, n: nat)
    requires ValidWorld(w) && CachesValid(m) && n < |m.nodes| && NamedNode(m.nodes[n])
    ensures NamedNode(Do(w, m, step).nodes[n])
  {
    if step.n == n {
      match step
      case QueueTurn(_) =>
        if m.nodes[n].ops != [] { TurnIsNamed(w, m.nodes[n]); }
      case Hear(_, packet, now) =>
        if Received(w, packet).Some? && Received(w, packet).value.payload.Some?
          && Received(w, packet).value.payload.value.Need? {
          NeedWorkIsNamed(m.nodes[n].cache, Received(w, packet).value.payload.value.missing);
        }
      case _ =>
    }
  }

  lemma {:induction false} RunIsNamed(w: World, size: nat, steps: seq<Step>, n: nat)
    requires ValidWorld(w) && n < size
    ensures NamedNode(Run(w, size, steps).nodes[n])
  {
    if steps != [] {
      RunIsNamed(w, size, steps[..|steps| - 1], n);
      StepIsNamed(w, Run(w, size, steps[..|steps| - 1]), steps[|steps| - 1], n);
    }
  }

  /** In every reachable state every queued frame is marked as ours and queued under its own id. */
  lemma QueuedFramesAreNamed(w: World, size: nat, steps: seq<Step>, n: nat, e: Entry<LinkFrame>)
    requires ValidWorld(w) && n < size
    requires var q := Run(w, size, steps).nodes[n].queues; e in q.high || e in q.normal
    ensures Named(e.msgid, e.frame)
  {
    RunIsNamed(w, size, steps, n);
  }

  // ---- what has been heard leaves the queues ----

  ghost predicate NoneWithId(queue: seq<Entry<LinkFrame>>, msgid: MsgId) {
    forall e :: e in queue ==> e.msgid != msgid
  }

  /** The cancellations of one handler are under way: where one is no longer pending, it has taken effect. */
  ghost predicate Dropping(node: Node, msgid: MsgId) {
    && (forall i :: 0 <= i < |node.ops| ==> node.ops[i].CancelOp?)
    && (CancelOp(msgid, High) in node.ops || NoneWithId(node.queues.high, msgid))
    && (CancelOp(msgid, Normal) in node.ops || NoneWithId(node.queues.normal, msgid))
  }

  lemma TurnKeepsDropping(w: World, node: Node, msgid: MsgId)
    requires Dropping(node, msgid) && node.ops != []
    ensures Dropping(DoQueueTurn(w, node), msgid)
  {
    assert node.ops == [node.ops[0]] + node.ops[1..];
  }

  lemma StepKeepsDropping(w: World, m: Mesh, step: Step, n: nat, msgid: MsgId)
    requires ValidWorld(w) && CachesValid(m) && n < |m.nodes|
    requires Dropping(m.nodes[n], msgid) && m.nodes[n].ops != []
    ensures Dropping(Do(w, m, step).nodes[n], msgid)
  {
    if step.n == n {
      match step
      case QueueTurn(_) => TurnKeepsDropping(w, m.nodes[n], msgid);
      case _ =>
    }
  }

  /** The same handler is at work at node n from step start on to the end of the run. */
  ghost predicate AtWork(w: World, size: nat, steps: seq<Step>, start: nat, n: nat)
    requires ValidWorld(w) && n < size
  {
    forall k :: start <= k < |steps| ==> Run(w, size, steps[..k]).nodes[n].ops != []
  }

  lemma {:induction false} WorkDrops(w: World, size: nat, steps: seq<Step>, start: nat, n: nat, msgid: MsgId)
    requires ValidWorld(w) && n < size && start <= |steps| && AtWork(w, size, steps, start, n)
    requires Dropping(Run(w, size, steps[..start]).nodes[n], msgid)
    ensures Dropping(Run(w, size, steps).nodes[n], msgid)
    decreases |steps|
  {
    if start == |steps| {
      assert steps[..start] == steps;
    } else {
      var shorter := steps[..|steps| - 1];
      assert shorter[..start] == steps[..start];
      forall k | start <= k < |shorter| ensures Run(w, size, shorter[..k]).nodes[n].ops != [] {
        assert shorter[..k] == steps[..k];
      }
      WorkDrops(w, size, shorter, start, n, msgid);
      assert Run(w, size, steps[..|steps| - 1]).nodes[n].ops != [];
      StepKeepsDropping(w, Run(w, size, shorter), steps[|steps| - 1], n, msgid);
    }
  }

  /** The frame says the same message, or the same slot of the same message, as one that was heard. */
  predicate SaysSame(heard: LinkFrame, frame: LinkFrame) {
    && heard.payload.Some? && frame.payload.Some?
    && match heard.payload.value
       case Complete(msg) => frame.payload.value.Complete? && frame.payload.value.msg.msgid == msg.msgid
       case Fragment(frag) =>
         && frame.payload.value.Fragment?
         && frame.payload.value.frag.msgid == frag.msgid && frame.payload.value.frag.fragndx == frag.fragndx
       case Need(_) => false
  }

  /** A copy of what was heard, under the id a message has by itself or a fragment of it has. */
  predicate IsOwnCopy(heard: LinkFrame, e: Entry<LinkFrame>) {
    SaysSame(heard, e.frame) && (heard.payload.value.Complete? ==> e.msgid.frag.None?)
  }

  /** The id that copies of a complete message or fragment are queued under. */
  function IdOf(heard: LinkFrame): Option<MsgId> {
    match heard.payload
    case Some(Complete(msg)) => Some(MsgId(msg.msgid, None))
    case Some(Fragment(frag)) => Some(MsgId(frag.msgid, Some(frag.fragndx)))
    case _ => None
  }

  lemma CopiesHaveTheId(heard: LinkFrame, e: Entry<LinkFrame>)
    requires Named(e.msgid, e.frame) && IsOwnCopy(heard, e)
    ensures IdOf(heard) == Some(e.msgid)
  {
  }

  lemma HearingStartsDropping(node: Node, heard: LinkFrame, now: nat)
    requires ValidCache(node.cache) && IdOf(heard).Some?
    ensures Dropping(DoHear(node, heard, now), IdOf(heard).value)
  {
    var ops := DoHear(node, heard, now).ops;
    assert ops == [CancelOp(IdOf(heard).value, High), CancelOp(IdOf(heard).value, Normal)];
    assert ops[0] in ops && ops[1] in ops;
  }

  lemma DropsWhatIsHeard(
      w: World, size: nat, steps: seq<Step>, n: nat, heard: LinkFrame, now: nat, more: seq<Step>)
    requires ValidWorld(w) && n < size && CanHear(w, Run(w, size, steps), n, heard) && IdOf(heard).Some?
    requires AtWork(w, size, steps + [Hear(n, Packet(w, heard), now)] + more, |steps| + 1, n)
    ensures Dropping(Run(w, size, steps + [Hear(n, Packet(w, heard), now)] + more).nodes[n], IdOf(heard).value)
  {
    var begun := steps + [Hear(n, Packet(w, heard), now)];
    HearsFrame(w, size, steps, n, heard, now);
    HearingStartsDropping(Run(w, size, steps).nodes[n], heard, now);
    assert (begun + more)[..|steps| + 1] == begun;
    WorkDrops(w, size, begun + more, |steps| + 1, n, IdOf(heard).value);
  }

  /**
    In every run, under every interleaving with the regulator and other nodes: once a node has heard a
    frame and its handler is done, no copy of its own of what it heard is left in its queues.
   */
  lemma HeardLeavesQueues(
      w: World, size: nat, steps: seq<Step>, n: nat, heard: LinkFrame, now: nat, more: seq<Step>, e: Entry<LinkFrame>)
    requires ValidWorld(w) && n < size && CanHear(w, Run(w, size, steps), n, heard)
    requires AtWork(w, size, steps + [Hear(n, Packet(w, heard), now)] + more, |steps| + 1, n)
    requires var node := Run(w, size, steps + [Hear(n, Packet(w, heard), now)] + more).nodes[n];
      node.ops == [] && (e in node.queues.high || e in node.queues.normal)
    ensures !IsOwnCopy(heard, e)
  {
    RunIsNamed(w, size, steps + [Hear(n, Packet(w, heard), now)] + more, n);
    if IsOwnCopy(heard, e) {
      CopiesHaveTheId(heard, e);
      DropsWhatIsHeard(w, size, steps, n, heard, now, more);
    }
  }

  /** With nothing in between, the hearing and its two queue turns take out exactly the frames with that id. */
  lemma HeardIsDroppedExactly(w: World, size: nat, steps: seq<Step>, n: nat, heard: LinkFrame, now: nat)
    requires ValidWorld(w) && n < size && CanHear(w, Run(w, size, steps), n, heard)
    requires heard.payload.Some? && !heard.payload.value.Need?
    ensures var q := Run(w, size, steps).nodes[n].queues;
      var node' := Run(w, size, steps + [Hear(n, Packet(w, heard), now)] + [QueueTurn(n)] + [QueueTurn(n)]).nodes[n];
      var msgid := match heard.payload.value
        case Complete(msg) => MsgId(msg.msgid, None)
        case Fragment(frag) => MsgId(frag.msgid, Some(frag.fragndx));
      && node'.ops == []
      && node'.queues == Queues(Retain(q.normal, NotId(msgid)), Retain(q.high, NotId(msgid)))
  {
    var begun := steps + [Hear(n, Packet(w, heard), now)];
    HearsFrame(w, size, steps, n, heard, now);
    RunAppend(w, size, begun, QueueTurn(n));
    RunAppend(w, size, begun + [QueueTurn(n)], QueueTurn(n));
  }
}
