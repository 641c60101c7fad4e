/** What lasts in a cache over any continuation of any run of the mesh, and when a message gets completed. */
module MeshHistory {
  import opened Prelude
  import opened LinkTypes
  import opened OutgoingQueues
  import opened FragCache
  import opened Fragmentation
  import opened Repair
  import opened LinkProtocol
  import opened Meshes

  // ---- clock readings ----

  /** The clock reading a step takes, if it takes one. */
  function ReadingOf(step: Step): Option<nat> {
    match step
    case Send(_, _, _, now) => Some(now)
    case Hear(_, _, now) => Some(now)
    case Ask(_, now, _, _) => Some(now)
    case _ => None
  }

  /** The clock never runs backwards. */
  predicate Steady(steps: seq<Step>) {
    forall i, j :: 0 <= i < j < |steps| && ReadingOf(steps[i]).Some? && ReadingOf(steps[j]).Some? ==>
      ReadingOf(steps[i]).value <= ReadingOf(steps[j]).value
  }

  predicate ReadAtMost(steps: seq<Step>, clock: nat) {
    forall i :: 0 <= i < |steps| && ReadingOf(steps[i]).Some? ==> ReadingOf(steps[i]).value <= clock
  }

  // ---- what lasts ----

  /** The entry stays, with its first sight, what it holds and its completion. */
  ghost predicate Lasts(c: Cache, c': Cache, id: u64) {
    id in c ==>
      && id in c' && c'[id].created == c[id].created
      && (c[id].completed ==> c'[id].completed)
      && (forall i: nat :: Holds(c, id, i) ==> Holds(c', id, i))
  }

  /** Besides, nothing new is held or completed. */
  ghost predicate Same(c: Cache, c': Cache, id: u64) {
    && Lasts(c, c', id) && (id in c' ==> id in c)
    && (id in c ==> (c'[id].completed <==> c[id].completed))
    && (forall i: nat :: Holds(c', id, i) ==> Holds(c, id, i))
  }

  lemma SameTwice(a: Cache, b: Cache, c: Cache, id: u64)
    requires Same(a, b, id) && Same(b, c, id)
    ensures Same(a, c, id)
  {
  }

  lemma LastsTwice(a: Cache, b: Cache, c: Cache, id: u64)
    requires Lasts(a, b, id) && Lasts(b, c, id)
    ensures Lasts(a, c, id)
  {
  }

  /** A true fragment fills its own slot, and touches no other message. */
  lemma AddLasts(w: World, c: Cache, frag: LinkFrag, inbound: bool, now: nat, id: u64)
    requires TrueCache(w, c) && IsMessage(w, frag.msgid) && CopyOf(frag, frag.msgid, w.payloads[frag.msgid])
    ensures Lasts(c, Add(c, frag, inbound, now).0, id)
    ensures frag.msgid != id ==> Same(c, Add(c, frag, inbound, now).0, id)
    ensures frag.msgid == id ==>
      var c' := Add(c, frag, inbound, now).0;
      && (forall i: nat :: Holds(c', id, i) <==> Holds(c, id, i) || i == frag.fragndx)
      && (inbound ==> Fills(c, c', id, frag.fragndx))
  {
    var c' := Add(c, frag, inbound, now).0;
    if frag.msgid == id {
      ChunkSizes(w.payloads[id], frag.fragndx);
      var p := EntryFor(c, frag, inbound, now);
      assert EntryOf(p, w.payloads[id]) && InRange(p, frag) && Plain(frag) != [];
      assert p.completed ==> Whole(p);
    }
  }

  /** What a node's own sends do to an entry; those of other messages do nothing. */
  ghost predicate OwnChange(c: Cache, c': Cache, own: u64, id: u64) {
    Lasts(c, c', id) && (own != id ==> Same(c, c', id))
  }

  lemma KeepOneLasts(w: World, start: Cache, c: Cache, own: u64, i: nat, now: nat, id: u64)
    requires TrueCache(w, c) && OwnChange(start, c, own, id)
    requires IsMessage(w, own) && i < NumFrag(w.payloads[own]) && Sendable(w.payloads[own])
    ensures OwnChange(start, Add(c, OriginalFrag(own, w.payloads[own], i), false, now).0, own, id)
  {
    var frag := OriginalFrag(own, w.payloads[own], i);
    var c' := Add(c, frag, false, now).0;
    OriginalIsCopy(own, w.payloads[own], i);
    AddLasts(w, c, frag, false, now, id);
    LastsTwice(start, c, c', id);
    if own != id {
      SameTwice(start, c, c', id);
    }
  }

  lemma {:induction false} KeepOwnLasts(w: World, c: Cache, own: u64, n: nat, now: nat, id: u64)
    requires TrueCache(w, c) && IsMessage(w, own) && n <= NumFrag(w.payloads[own]) && Sendable(w.payloads[own])
    ensures OwnChange(c, KeepOwn(c, own, w.payloads[own], n, now), own, id)
  {
    if n > 0 {
      KeepOwnLasts(w, c, own, n - 1, now, id);
      KeepOwnIsTrue(w, c, own, n - 1, now);
      KeepOneLasts(w, c, KeepOwn(c, own, w.payloads[own], n - 1, now), own, n - 1, now, id);
    }
  }

  lemma FulfillSame(c: Cache, missing: LinkMissing, id: u64)
    requires ValidCache(c)
    ensures Same(c, Fulfill(c, missing).0, id)
  {
    if missing.msgid == id && id in c {
      AnswerKeepsData(id, c[id].frags, missing.fragndx);
      var after := Answer(id, c[id].frags, missing.fragndx).1;
      assert forall i :: 0 <= i < |after| ==> Slots(after)[i] == Slots(c[id].frags)[i];
    }
  }

  lemma {:induction false} NeedWorkSame(c: Cache, missing: seq<LinkMissing>, id: u64)
    requires ValidCache(c)
    ensures Same(c, NeedWork(c, missing).0, id)
  {
    if missing != [] {
      var before := NeedWork(c, missing[..|missing| - 1]).0;
      NeedWorkSame(c, missing[..|missing| - 1], id);
      FulfillSame(before, missing[|missing| - 1], id);
      SameTwice(c, before, NeedWork(c, missing).0, id);
    }
  }

  // ---- one step ----

  /** What a step of the mesh is for one message at one node. */
  datatype Change = Kept | Heard(slot: nat) | SentItself

  /** The slot of the message that this frame is a fragment for. */
  function SlotOf(frame: LinkFrame, id: u64): Option<nat> {
    match frame.payload
    case Some(Fragment(frag)) => if frag.msgid == id then Some(frag.fragndx) else None
    case _ => None
  }

  /** The frame that node n hears in this step. */
  function FrameHeard(w: World, m: Mesh, step: Step, n: nat): Option<LinkFrame> {
    if step.Hear? && step.n == n && n < |m.nodes| && m.nodes[n].ops == [] && step.packet in m.air
    then Received(w, step.packet)
    else None
  }

  function ChangeBy(w: World, m: Mesh, step: Step, n: nat, id: u64): Change {
    if step.Send? && step.n == n && step.msgid.base == id then SentItself
    else
      match FrameHeard(w, m, step, n)
      case Some(frame) => if SlotOf(frame, id).Some? then Heard(SlotOf(frame, id).value) else Kept
      case None => Kept
  }

  /** Hearing a slot fills it and no other, and completes the entry if that leaves no gap. */
  ghost predicate Fills(c: Cache, c': Cache, id: u64, i: nat) {
    && id in c' && (c'[id].completed <==> Whole(c'[id]))
    && forall k: nat :: Holds(c', id, k) <==> Holds(c, id, k) || k == i
  }

  ghost predicate Changes(c: Cache, c': Cache, change: Change, id: u64) {
    && Lasts(c, c', id)
    && (change.Kept? ==> Same(c, c', id))
    && (change.Heard? ==> Fills(c, c', id, change.slot))
  }

  lemma StepChanges(w: World, m: Mesh, step: Step, n: nat, id: u64)
    requires ValidWorld(w) && CachesValid(m) && TrueMesh(w, m) && n < |m.nodes|
    ensures Changes(m.nodes[n].cache, Do(w, m, step).nodes[n].cache, ChangeBy(w, m, step, n, id), id)
  {
    if step.n == n {
      var node := m.nodes[n];
      assert TrueNode(w, node);
      match step
      case Send(_, msgid, options, now) =>
        if node.ops == [] && msgid.base in w.payloads && |w.payloads[msgid.base]| > LINK_FRAG_THRESH {
          KeepOwnLasts(w, node.cache, msgid.base, NumFrag(w.payloads[msgid.base]), now, id);
        }
      case Hear(_, packet, now) =>
        if node.ops == [] && packet in m.air && Received(w, packet).Some? {
          PacketsAreReceived(w, packet);
          HearChanges(w, node, Received(w, packet).value, now, id);
        }
      case _ =>
    }
  }

  lemma HearChanges(w: World, node: Node, frame: LinkFrame, now: nat, id: u64)
    requires TrueNode(w, node) && ValidCache(node.cache) && TrueFrame(w, frame)
    ensures var c, c' := node.cache, DoHear(node, frame, now).cache;
      Changes(c, c', if SlotOf(frame, id).Some? then Heard(SlotOf(frame, id).value) else Kept, id)
  {
    match frame.payload
    case Some(Fragment(frag)) => AddLasts(w, node.cache, frag, true, now, id);
    case Some(Need(missing)) => NeedWorkSame(node.cache, missing, id);
    case _ =>
  }

  // ---- chains of changes ----

  /** Each of these caches comes from the one before by its change. */
  ghost predicate Chain(w: World, cs: seq<Cache>, log: seq<Change>, id: u64) {
    && |cs| == |log| + 1
    && (forall k :: 0 <= k < |cs| ==> TrueCache(w, cs[k]))
    && (forall k :: 0 <= k < |log| ==> ChangesAt(cs, log, k, id))
  }

  ghost predicate ChangesAt(cs: seq<Cache>, log: seq<Change>, k: nat, id: u64)
    requires k < |log| && |cs| == |log| + 1
  {
    Changes(cs[k], cs[k + 1], log[k], id)
  }

  predicate HeardIn(log: seq<Change>, start: nat, end: nat, i: nat)
    requires start <= end <= |log|
  {
    Heard(i) in log[start..end]
  }

  predicate InGap(w: World, c: Cache, id: u64, i: nat)
    requires id in w.payloads
  {
    i < NumFrag(w.payloads[id]) && !Holds(c, id, i)
  }

  /** Every slot of the message that this cache lacks is heard in this part of the log. */
  ghost predicate GapHeard(w: World, c: Cache, log: seq<Change>, start: nat, end: nat, id: u64)
    requires start <= end <= |log| && id in w.payloads
  {
    forall i: nat :: InGap(w, c, id, i) ==> HeardIn(log, start, end, i)
  }

  predicate IsCompleted(c: Cache, id: u64) {
    id in c && c[id].completed
  }

  lemma {:induction false} ChainLasts(w: World, cs: seq<Cache>, log: seq<Change>, start: nat, end: nat, id: u64)
    requires Chain(w, cs, log, id) && start <= end <= |log|
    ensures Lasts(cs[start], cs[end], id)
    decreases end
  {
    if start < end {
      ChainLasts(w, cs, log, start, end - 1, id);
      assert ChangesAt(cs, log, end - 1, id);
      LastsTwice(cs[start], cs[end - 1], cs[end], id);
    }
  }

  lemma HeardInStep(log: seq<Change>, start: nat, end: nat, i: nat)
    requires start < end <= |log|
    ensures HeardIn(log, start, end, i) <==> HeardIn(log, start, end - 1, i) || log[end - 1] == Heard(i)
  {
    assert log[start..end] == log[start..end - 1] + [log[end - 1]];
  }

  /** A node holds what it held before and what it has heard since, and nothing else unless it sends the message itself. */
  lemma {:induction false} ChainHolds(
      w: World, cs: seq<Cache>, log: seq<Change>, start: nat, end: nat, id: u64, i: nat)
    requires Chain(w, cs, log, id) && start <= end <= |log|
    ensures Holds(cs[start], id, i) || HeardIn(log, start, end, i) ==> Holds(cs[end], id, i)
    ensures SentItself !in log[start..end] && Holds(cs[end], id, i) ==>
      Holds(cs[start], id, i) || HeardIn(log, start, end, i)
    decreases end
  {
    if start < end {
      ChainHolds(w, cs, log, start, end - 1, id, i);
      HeardInStep(log, start, end, i);
      assert log[start..end] == log[start..end - 1] + [log[end - 1]];
      assert ChangesAt(cs, log, end - 1, id);
    }
  }

  lemma NoGapIsWhole(w: World, c: Cache, id: u64)
    requires TrueCache(w, c) && IsMessage(w, id) && forall i: nat :: !InGap(w, c, id, i)
    ensures id in c && Whole(c[id])
  {
    assert !InGap(w, c, id, 0);
    assert EntryOf(c[id], w.payloads[id]);
    forall i | 0 <= i < |c[id].frags| ensures c[id].frags[i].data != [] {
      assert !InGap(w, c, id, i);
    }
  }

  lemma {:induction false} ChainCompletes(
      w: World, cs: seq<Cache>, log: seq<Change>, start: nat, end: nat, id: u64, g: nat)
    requires Chain(w, cs, log, id) && start <= end <= |log| && IsMessage(w, id)
    requires InGap(w, cs[start], id, g) && GapHeard(w, cs[start], log, start, end, id)
    ensures IsCompleted(cs[end], id)
    decreases end
  {
    GapTakesSteps(w, cs[start], log, start, end, id, g);
    StepOfChain(w, cs, log, end - 1, id);
    if GapHeard(w, cs[start], log, start, end - 1, id) {
      ChainCompletes(w, cs, log, start, end - 1, id, g);
    } else {
      LastOfGap(w, cs[start], log, start, end, id);
      GapIsFilled(w, cs, log, start, end, id);
    }
  }

  lemma GapTakesSteps(w: World, c: Cache, log: seq<Change>, start: nat, end: nat, id: u64, g: nat)
    requires start <= end <= |log| && id in w.payloads && InGap(w, c, id, g) && GapHeard(w, c, log, start, end, id)
    ensures start < end
  {
    assert HeardIn(log, start, end, g);
  }

  lemma StepOfChain(w: World, cs: seq<Cache>, log: seq<Change>, k: nat, id: u64)
    requires Chain(w, cs, log, id) && k < |log|
    ensures IsCompleted(cs[k], id) ==> IsCompleted(cs[k + 1], id)
    ensures log[k].Heard? && id in cs[k + 1] && Whole(cs[k + 1][id]) ==> IsCompleted(cs[k + 1], id)
  {
    assert ChangesAt(cs, log, k, id);
  }

  lemma LastOfGap(w: World, c: Cache, log: seq<Change>, start: nat, end: nat, id: u64)
    requires start < end <= |log| && id in w.payloads
    requires GapHeard(w, c, log, start, end, id) && !GapHeard(w, c, log, start, end - 1, id)
    ensures log[end - 1].Heard?
  {
    var i: nat :| InGap(w, c, id, i) && !HeardIn(log, start, end - 1, i);
    assert HeardIn(log, start, end, i);
    HeardInStep(log, start, end, i);
  }

  lemma GapIsFilled(w: World, cs: seq<Cache>, log: seq<Change>, start: nat, end: nat, id: u64)
    requires Chain(w, cs, log, id) && start <= end <= |log| && IsMessage(w, id)
    requires GapHeard(w, cs[start], log, start, end, id)
    ensures id in cs[end] && Whole(cs[end][id])
  {
    forall k: nat ensures !InGap(w, cs[end], id, k) {
      ChainHolds(w, cs, log, start, end, id, k);
      assert InGap(w, cs[start], id, k) ==> HeardIn(log, start, end, k);
    }
    NoGapIsWhole(w, cs[end], id);
  }

  // ---- whole runs ----

  ghost function CacheAt(w: World, size: nat, steps: seq<Step>, k: nat, n: nat): (c: Cache)
    requires ValidWorld(w) && k <= |steps| && n < size
    ensures ValidCache(c)
  {
    Run(w, size, steps[..k]).nodes[n].cache
  }

  ghost function Caches(w: World, size: nat, steps: seq<Step>, n: nat): (cs: seq<Cache>)
    requires ValidWorld(w) && n < size
    ensures |cs| == |steps| + 1
  {
    seq(|steps| + 1, k requires 0 <= k <= |steps| => CacheAt(w, size, steps, k, n))
  }

  /** What each step of a run was for this message at node n. */
  ghost function Log(w: World, size: nat, steps: seq<Step>, n: nat, id: u64): (log: seq<Change>)
    requires ValidWorld(w)
    ensures |log| == |steps|
  {
    seq(|steps|, k requires 0 <= k < |steps| => ChangeBy(w, Run(w, size, steps[..k]), steps[k], n, id))
  }

  lemma CacheChanges(w: World, size: nat, steps: seq<Step>, k: nat, n: nat, id: u64)
    requires ValidWorld(w) && k < |steps| && n < size
    ensures Changes(CacheAt(w, size, steps, k, n), CacheAt(w, size, steps, k + 1, n),
      ChangeBy(w, Run(w, size, steps[..k]), steps[k], n, id), id)
  {
    assert steps[..k + 1][..k] == steps[..k];
    StepChanges(w, Run(w, size, steps[..k]), steps[k], n, id);
  }

  /** The caches of a node over a run are a chain. */
  lemma RunIsChain(w: World, size: nat, steps: seq<Step>, n: nat, id: u64)
    requires ValidWorld(w) && n < size
    ensures Chain(w, Caches(w, size, steps, n), Log(w, size, steps, n, id), id)
  {
    var cs, log := Caches(w, size, steps, n), Log(w, size, steps, n, id);
    forall k | 0 <= k < |cs| ensures TrueCache(w, cs[k]) {
      assert TrueNode(w, Run(w, size, steps[..k]).nodes[n]);
    }
    forall k | 0 <= k < |log| ensures ChangesAt(cs, log, k, id) {
      CacheChanges(w, size, steps, k, n, id);
    }
  }

  lemma CompletedIsCounted(w: World, size: nat, steps: seq<Step>, k: nat, n: nat, id: u64)
    requires ValidWorld(w) && k <= |steps| && n < size && IsMessage(w, id)
    ensures var node := Run(w, size, steps[..k]).nodes[n];
      CountOf(node.upcalls, id) == if IsCompleted(CacheAt(w, size, steps, k, n), id) then 1 else 0
  {
    assert TrueNode(w, Run(w, size, steps[..k]).nodes[n]);
  }

  /**
    Every continuation of every run, whatever else goes on in it: a node that misses part of a message
    has had it completed and handed up, once, if it has heard each missing slot; and, unless it
    sends that message itself, only then.
   */
  lemma CompletesIffHeard(w: World, size: nat, steps: seq<Step>, start: nat, n: nat, id: u64, g: nat)
    requires ValidWorld(w) && start <= |steps| && n < size && IsMessage(w, id)
    requires InGap(w, CacheAt(w, size, steps, start, n), id, g)
    ensures var node, log := Run(w, size, steps).nodes[n], Log(w, size, steps, n, id);
      var all := GapHeard(w, CacheAt(w, size, steps, start, n), log, start, |steps|, id);
      && (all ==> IsCompleted(node.cache, id) && CountOf(node.upcalls, id) == 1)
      && (!all && SentItself !in log[start..] ==> !IsCompleted(node.cache, id) && CountOf(node.upcalls, id) == 0)
  {
    assert steps[..|steps|] == steps;
    RunIsChain(w, size, steps, n, id);
    CompletedIsCounted(w, size, steps, |steps|, n, id);
    ChainCompletesIff(w, Caches(w, size, steps, n), Log(w, size, steps, n, id), start, id, g);
  }

  lemma ChainCompletesIff(w: World, cs: seq<Cache>, log: seq<Change>, start: nat, id: u64, g: nat)
    requires Chain(w, cs, log, id) && start <= |log| && IsMessage(w, id) && InGap(w, cs[start], id, g)
    ensures GapHeard(w, cs[start], log, start, |log|, id) ==> IsCompleted(cs[|log|], id)
    ensures !GapHeard(w, cs[start], log, start, |log|, id) && SentItself !in log[start..] ==>
      !IsCompleted(cs[|log|], id)
  {
    if GapHeard(w, cs[start], log, start, |log|, id) {
      ChainCompletes(w, cs, log, start, |log|, id, g);
    } else if SentItself !in log[start..] {
      var i: nat :| InGap(w, cs[start], id, i) && !HeardIn(log, start, |log|, i);
      assert log[start..|log|] == log[start..];
      ChainHolds(w, cs, log, start, |log|, id, i);
      GapIsNotCompleted(w, cs[|log|], id, i);
    }
  }

  lemma GapIsNotCompleted(w: World, c: Cache, id: u64, i: nat)
    requires TrueCache(w, c) && IsMessage(w, id) && InGap(w, c, id, i)
    ensures !IsCompleted(c, id)
  {
    if id in c {
      assert EntryOf(c[id], w.payloads[id]) && c[id].frags[i].data == [];
    }
  }

  // ---- what never happens again ----

  /** An entry keeps its first sight, its completion and what it holds, whatever happens. */
  lemma EntryLasts(w: World, size: nat, steps: seq<Step>, start: nat, end: nat, n: nat, id: u64)
    requires ValidWorld(w) && start <= end <= |steps| && n < size
    ensures Lasts(CacheAt(w, size, steps, start, n), CacheAt(w, size, steps, end, n), id)
  {
    RunIsChain(w, size, steps, n, id);
    ChainLasts(w, Caches(w, size, steps, n), Log(w, size, steps, n, id), start, end, id);
  }

  /** Once handed up, a message is never handed up again at that node, whoever sends it again. */
  lemma NeverHandedUpAgain(w: World, size: nat, steps: seq<Step>, start: nat, n: nat, id: u64)
    requires ValidWorld(w) && start <= |steps| && n < size && IsMessage(w, id)
    requires CountOf(Run(w, size, steps[..start]).nodes[n].upcalls, id) > 0
    ensures CountOf(Run(w, size, steps).nodes[n].upcalls, id) == 1
  {
    assert steps[..|steps|] == steps;
    CompletedIsCounted(w, size, steps, start, n, id);
    CompletedIsCounted(w, size, steps, |steps|, n, id);
    EntryLasts(w, size, steps, start, |steps|, n, id);
  }

  /** On a steady clock, a node asks for nothing of a message from 300 seconds after its first sight on. */
  lemma AskWindowCloses(w: World, size: nat, steps: seq<Step>, start: nat, j: nat, k: nat, n: nat, id: u64)
    requires ValidWorld(w) && Steady(steps) && start <= k < |steps| && j <= k && n < size
    requires id in CacheAt(w, size, steps, start, n) && ReadingOf(steps[j]).Some?
    requires ReadingOf(steps[j]).value >= CacheAt(w, size, steps, start, n)[id].created + MAX_AGE_SECS
    requires steps[k].Ask? && IsRequestFor(steps[k].reqs, CacheAt(w, size, steps, k, n), steps[k].now)
    ensures !RequestedIn(steps[k].reqs, id)
  {
    EntryLasts(w, size, steps, start, k, n, id);
    ReadsNoLess(steps, j, k);
    TooLateToAsk(CacheAt(w, size, steps, k, n), steps[k].reqs, steps[k].now, id);
  }

  lemma ReadsNoLess(steps: seq<Step>, j: nat, k: nat)
    requires Steady(steps) && j <= k < |steps| && ReadingOf(steps[j]).Some? && ReadingOf(steps[k]).Some?
    ensures ReadingOf(steps[j]).value <= ReadingOf(steps[k]).value
  {
  }

  lemma TooLateToAsk(c: Cache, reqs: seq<LinkMissing>, now: nat, id: u64)
    requires ValidCache(c) && IsRequestFor(reqs, c, now) && id in c && now >= c[id].created + MAX_AGE_SECS
    ensures !RequestedIn(reqs, id)
  {
    forall q | 0 <= q < |reqs| ensures reqs[q].msgid != id {
      assert IsRequest(reqs[q], c, now);
    }
  }
}
