/**
  What a fragment cache does over its whole life, told without the cache: a slot holds the
  last data written to it, and a message is delivered at the first heard fragment that leaves
  none of its slots empty.
 */
module FragHistory {
  import opened Prelude
  import opened FragCache

  datatype Op =
    | Added(frag: LinkFrag, inbound: bool, now: nat)
    | Overdue(now: nat)
    | Requested(missing: LinkMissing)

  /** The cache after these calls, starting empty. */
  function Run(ops: seq<Op>): (c: Cache)
    ensures ValidCache(c)
  {
    if ops == [] then map[] else After(Run(ops[..|ops| - 1]), ops[|ops| - 1])
  }

  function After(c: Cache, op: Op): (c': Cache)
    requires ValidCache(c)
    ensures ValidCache(c')
  {
    match op
    case Added(frag, inbound, now) => Add(c, frag, inbound, now).0
    case Overdue(now) => AfterOverdue(c, now)
    case Requested(missing) => Fulfill(c, missing).0
  }

  /** What call number k hands to the client. */
  function Output(ops: seq<Op>, k: nat): Option<LinkMsg>
    requires k < |ops|
  {
    if ops[k].Added? then Add(Run(ops[..k]), ops[k].frag, ops[k].inbound, ops[k].now).1 else None
  }

  // ---- the reference: looking only at the calls ----

  predicate Concerns(op: Op, id: u64) {
    op.Added? && op.frag.msgid == id
  }

  /** The number of slots of a message: what its first fragment said. */
  function SlotCount(ops: seq<Op>, id: u64): Option<u32> {
    if ops == [] then None
    else
      var before := SlotCount(ops[..|ops| - 1], id);
      var op := ops[|ops| - 1];
      if before.None? && Concerns(op, id) then Some(op.frag.numfrag) else before
  }

  /** The bytes last written to slot i of a message. */
  function LastWrite(ops: seq<Op>, id: u64, i: u32): seq<byte> {
    if ops == [] then []
    else
      var op := ops[|ops| - 1];
      if Concerns(op, id) && op.frag.fragndx == i then Plain(op.frag)
      else LastWrite(ops[..|ops| - 1], id, i)
  }

  ghost predicate AllWritten(ops: seq<Op>, id: u64) {
    SlotCount(ops, id).Some? && forall i :: 0 <= i < SlotCount(ops, id).value ==> LastWrite(ops, id, i) != []
  }

  /** Call number k is a heard, in-range fragment after which no slot of the message is empty. */
  ghost predicate Completing(ops: seq<Op>, k: nat, id: u64) {
    && k < |ops| && Concerns(ops[k], id) && ops[k].inbound
    && AllWritten(ops[..k + 1], id)
    && ops[k].frag.fragndx < SlotCount(ops[..k + 1], id).value
  }

  /** All slots of a message in index order, as last written. */
  function Written(ops: seq<Op>, id: u64): seq<seq<byte>>
    requires SlotCount(ops, id).Some?
  {
    seq(SlotCount(ops, id).value, i requires 0 <= i < SlotCount(ops, id).value => LastWrite(ops, id, i))
  }

  ghost predicate EverComplete(ops: seq<Op>, id: u64) {
    exists k :: Completing(ops, k, id)
  }

  ghost predicate Mirrors(c: Cache, ops: seq<Op>, id: u64) {
    && (id in c <==> SlotCount(ops, id).Some?)
    && (id in c ==> Slots(c[id].frags) == Written(ops, id))
    && (id in c ==> (c[id].completed <==> EverComplete(ops, id)))
  }

  /** The cache always holds, for every message, exactly the last written slots. */
  lemma {:induction false} RunMirrors(ops: seq<Op>, id: u64)
    ensures Mirrors(Run(ops), ops, id)
  {
    if ops != [] {
      var prefix, op := ops[..|ops| - 1], ops[|ops| - 1];
      RunMirrors(prefix, id);
      if Concerns(op, id) {
        AddMirrors(ops, id);
      } else {
        EverCompleteStep(ops, id);
        OtherCallsKeep(Run(prefix), op, id);
      }
    }
  }

  lemma OtherCallsKeep(c: Cache, op: Op, id: u64)
    requires ValidCache(c) && !Concerns(op, id)
    ensures id in After(c, op) <==> id in c
    ensures id in c ==> Slots(After(c, op)[id].frags) == Slots(c[id].frags)
    ensures id in c ==> After(c, op)[id].completed == c[id].completed
  {
    if op.Requested? && op.missing.msgid in c {
      AnswerKeepsData(op.missing.msgid, c[op.missing.msgid].frags, op.missing.fragndx);
    }
  }

  lemma EverCompleteStep(ops: seq<Op>, id: u64)
    requires ops != []
    ensures EverComplete(ops, id) <==> EverComplete(ops[..|ops| - 1], id) || Completing(ops, |ops| - 1, id)
  {
    var prefix := ops[..|ops| - 1];
    forall k: nat | k < |prefix| ensures Completing(ops, k, id) <==> Completing(prefix, k, id) {
      assert ops[..k + 1] == prefix[..k + 1];
    }
  }

  lemma {:induction false} NeverConcerned(ops: seq<Op>, id: u64)
    requires SlotCount(ops, id).None?
    ensures !EverComplete(ops, id)
    ensures forall i :: LastWrite(ops, id, i) == []
  {
    if ops != [] {
      NeverConcerned(ops[..|ops| - 1], id);
      EverCompleteStep(ops, id);
    }
  }

  lemma AddMirrors(ops: seq<Op>, id: u64)
    requires ops != [] && Concerns(ops[|ops| - 1], id)
    requires Mirrors(Run(ops[..|ops| - 1]), ops[..|ops| - 1], id)
    ensures Mirrors(Run(ops), ops, id)
  {
    var prefix, op := ops[..|ops| - 1], ops[|ops| - 1];
    var p := EntryFor(Run(prefix), op.frag, op.inbound, op.now);
    AddWrites(ops, id, p);
    EverCompleteStep(ops, id);
    assert ops[..|ops|] == ops;
    if SlotCount(prefix, id).None? {
      NeverConcerned(prefix, id);
    }
    assert p.completed <==> EverComplete(prefix, id);
    if InRange(p, op.frag) {
      WholeIffAllWritten(Stored(p, op.frag), ops, id);
    }
  }

  /** One call moves the slots as the last write does. */
  lemma AddWrites(ops: seq<Op>, id: u64, p: PartialMsg)
    requires ops != [] && Concerns(ops[|ops| - 1], id)
    requires Mirrors(Run(ops[..|ops| - 1]), ops[..|ops| - 1], id)
    requires p == EntryFor(Run(ops[..|ops| - 1]), ops[|ops| - 1].frag, ops[|ops| - 1].inbound, ops[|ops| - 1].now)
    ensures |p.frags| == SlotCount(ops, id).value
    ensures Slots(Run(ops)[id].frags) == Written(ops, id)
  {
    var prefix, op := ops[..|ops| - 1], ops[|ops| - 1];
    var p' := Run(ops)[id];
    if SlotCount(prefix, id).None? {
      NeverConcerned(prefix, id);
    }
    forall i | 0 <= i < |p.frags| ensures p'.frags[i].data == LastWrite(ops, id, i) {
      if id in Run(prefix) {
        assert Slots(p.frags)[i] == Written(prefix, id)[i];
      }
    }
    assert Slots(p'.frags) == Written(ops, id);
  }

  lemma WholeIffAllWritten(p: PartialMsg, ops: seq<Op>, id: u64)
    requires SlotCount(ops, id).Some? && Slots(p.frags) == Written(ops, id)
    ensures Whole(p) <==> AllWritten(ops, id)
  {
    assert forall i :: 0 <= i < |p.frags| ==> p.frags[i].data == Written(ops, id)[i];
    if AllWritten(ops, id) {
      forall i | 0 <= i < |p.frags| ensures p.frags[i].data != [] {
        assert LastWrite(ops, id, i) != [];
      }
    }
    if Whole(p) {
      forall i | 0 <= i < SlotCount(ops, id).value ensures LastWrite(ops, id, i) != [] {
        assert p.frags[i].data != [];
      }
    }
  }

  /**
    Call k returns a message exactly when it is the first call that completes it; the message
    is then the last written slots in index order.
   */
  lemma DeliveredExactlyAtFirstCompletion(ops: seq<Op>, k: nat, id: u64)
    requires k < |ops|
    ensures (Output(ops, k).Some? && Output(ops, k).value.msgid == id)
       <==> Completing(ops, k, id) && forall j :: 0 <= j < k ==> !Completing(ops, j, id)
    ensures Output(ops, k).Some? && Output(ops, k).value.msgid == id ==>
      SlotCount(ops[..k + 1], id).Some? && Output(ops, k).value.data == Joined(Written(ops[..k + 1], id))
  {
    var prefix, upto := ops[..k], ops[..k + 1];
    assert upto[..|upto| - 1] == prefix && upto[..|upto|] == upto;
    if Concerns(ops[k], id) {
      RunMirrors(prefix, id);
      RunMirrors(upto, id);
      EarlierInPrefix(ops, k, id);
      assert Completing(ops, k, id) <==> Completing(upto, k, id);
      var op := ops[k];
      var p := EntryFor(Run(prefix), op.frag, op.inbound, op.now);
      if SlotCount(prefix, id).None? {
        NeverConcerned(prefix, id);
      }
      assert Run(upto)[id].frags == if InRange(p, op.frag) then Stored(p, op.frag).frags else p.frags;
      if InRange(p, op.frag) {
        WholeIffAllWritten(Stored(p, op.frag), upto, id);
      }
    }
  }

  lemma EarlierInPrefix(ops: seq<Op>, k: nat, id: u64)
    requires k < |ops|
    ensures EverComplete(ops[..k], id) <==> exists j :: 0 <= j < k && Completing(ops, j, id)
  {
    forall j | 0 <= j < k ensures Completing(ops[..k], j, id) <==> Completing(ops, j, id) {
      assert ops[..k][..j + 1] == ops[..j + 1];
    }
  }

  /** A message is handed to the client at most once in the life of a cache. */
  lemma DeliveredAtMostOnce(ops: seq<Op>, j: nat, k: nat)
    requires j < |ops| && k < |ops|
    requires Output(ops, j).Some? && Output(ops, k).Some?
    requires Output(ops, j).value.msgid == Output(ops, k).value.msgid
    ensures j == k
  {
    var id := Output(ops, j).value.msgid;
    DeliveredExactlyAtFirstCompletion(ops, j, id);
    DeliveredExactlyAtFirstCompletion(ops, k, id);
  }
}
