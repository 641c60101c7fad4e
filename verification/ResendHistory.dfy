/** The resends of one fragment over the whole life of a cache walk through the offsets in order. */
module ResendHistory {
  import opened Prelude
  import opened Rotation
  import opened FragCache
  import opened FragHistory

  function SentOf(sent: seq<LinkFrag>, i: u32): seq<LinkFrag> {
    Retain(sent, ForSlot(i))
  }

  function ForSlot(i: u32): LinkFrag -> bool {
    (f: LinkFrag) => f.fragndx == i
  }

  /** Every send of slot i of a message, in order, over these calls. */
  function SentLog(ops: seq<Op>, id: u64, i: u32): seq<LinkFrag> {
    if ops == [] then []
    else
      var prefix, op := ops[..|ops| - 1], ops[|ops| - 1];
      SentLog(prefix, id, i) +
      if op.Requested? && op.missing.msgid == id then SentOf(Fulfill(Run(prefix), op.missing).1, i) else []
  }

  /** These sends use the offsets from start on, one after the other, on the same data. */
  ghost predicate WalksOffsets(log: seq<LinkFrag>, data: seq<byte>, start: byte) {
    forall j :: 0 <= j < |log| ==>
      log[j].rotoff == Shifted(start, j) && log[j].data == Rotate(data, Shifted(start, j))
  }

  /** Having sent these fragments, slot i has moved on from f by one offset for each. */
  ghost predicate MovedOn(f: CachedFrag, sent: seq<LinkFrag>, f': CachedFrag, i: u32) {
    && WalksOffsets(SentOf(sent, i), f.data, f.rotoff)
    && f' == CachedFrag(Shifted(f.rotoff, |SentOf(sent, i)|), f.data)
  }

  lemma MovesOn(f: CachedFrag, sent: seq<LinkFrag>, f': CachedFrag, i: u32, frag: LinkFrag)
    requires MovedOn(f, sent, f', i)
    requires frag.fragndx == i ==> (frag.rotoff, frag.data) == (f'.rotoff, Rotate(f'.data, f'.rotoff))
    ensures MovedOn(f, sent + [frag], if frag.fragndx == i then RotateOctets(f').2 else f', i)
  {
    RetainAppend(sent, frag, ForSlot(i));
    var log := SentOf(sent, i);
    assert SentOf(sent + [frag], i) == if frag.fragndx == i then log + [frag] else log;
    if frag.fragndx == i {
      WalksOneMore(log, f.data, f.rotoff, frag);
    }
  }

  lemma WalksOneMore(log: seq<LinkFrag>, data: seq<byte>, start: byte, frag: LinkFrag)
    requires WalksOffsets(log, data, start)
    requires frag.rotoff == Shifted(start, |log|) && frag.data == Rotate(data, Shifted(start, |log|))
    ensures WalksOffsets(log + [frag], data, start)
  {
  }

  lemma {:induction false} AnswerWalksOffsets(id: u64, frags: seq<CachedFrag>, want: seq<u32>, i: u32)
    requires i < |frags| < 0x1_0000_0000
    ensures MovedOn(frags[i], Answer(id, frags, want).0, Answer(id, frags, want).1[i], i)
  {
    if want != [] {
      var shorter, k := want[..|want| - 1], want[|want| - 1];
      var (sent, before) := Answer(id, frags, shorter);
      AnswerWalksOffsets(id, frags, shorter, i);
      if k < |before| && before[k].data != [] {
        var frag := Answer(id, frags, want).0[|sent|];
        MovesOn(frags[i], sent, before[i], i, frag);
      }
    }
  }

  lemma SentIsHeld(id: u64, frags: seq<CachedFrag>, want: seq<u32>, i: u32)
    requires |frags| < 0x1_0000_0000
    ensures SentOf(Answer(id, frags, want).0, i) != [] ==> i < |frags| && frags[i].data != []
  {
    AnswerIsHeldData(id, frags, want);
    var sent := Answer(id, frags, want).0;
    if SentOf(sent, i) != [] {
      assert SentOf(sent, i)[0] in sent;
      var j :| 0 <= j < |sent| && sent[j] == SentOf(sent, i)[0];
      assert Answers(sent[j], id, frags, want);
    }
  }

  /** Every fragment ever added for slot i of the message carries these bytes. */
  predicate Carries(op: Op, id: u64, i: u32, data: seq<byte>) {
    Concerns(op, id) && op.frag.fragndx == i ==> Plain(op.frag) == data
  }

  ghost predicate AlwaysCarries(ops: seq<Op>, id: u64, i: u32, data: seq<byte>) {
    forall k :: 0 <= k < |ops| ==> Carries(ops[k], id, i, data)
  }

  ghost predicate SlotFollowsLog(c: Cache, id: u64, i: u32, log: seq<LinkFrag>, data: seq<byte>) {
    && WalksOffsets(log, data, 0)
    && if id in c && i < |c[id].frags|
       then c[id].frags[i].rotoff == Shifted(0, |log|) && (c[id].frags[i].data == [] || c[id].frags[i].data == data)
       else log == []
  }

  lemma {:induction false} LogWalksOffsets(ops: seq<Op>, id: u64, i: u32, data: seq<byte>)
    requires AlwaysCarries(ops, id, i, data)
    ensures SlotFollowsLog(Run(ops), id, i, SentLog(ops, id, i), data)
  {
    if ops != [] {
      var prefix, op := ops[..|ops| - 1], ops[|ops| - 1];
      LogWalksOffsets(prefix, id, i, data);
      assert Carries(op, id, i, data);
      if op.Requested? {
        RequestFollowsLog(Run(prefix), op.missing, id, i, SentLog(prefix, id, i), data);
      } else {
        OthersFollowLog(Run(prefix), op, id, i, SentLog(prefix, id, i), data);
      }
    }
  }

  lemma OthersFollowLog(c: Cache, op: Op, id: u64, i: u32, log: seq<LinkFrag>, data: seq<byte>)
    requires ValidCache(c) && SlotFollowsLog(c, id, i, log, data)
    requires !op.Requested? && Carries(op, id, i, data)
    ensures SlotFollowsLog(After(c, op), id, i, log + [], data)
  {
    assert log + [] == log;
  }

  lemma RequestFollowsLog(c: Cache, missing: LinkMissing, id: u64, i: u32, log: seq<LinkFrag>, data: seq<byte>)
    requires ValidCache(c) && SlotFollowsLog(c, id, i, log, data)
    ensures var more := if missing.msgid == id then SentOf(Fulfill(c, missing).1, i) else [];
      SlotFollowsLog(Fulfill(c, missing).0, id, i, log + more, data)
  {
    if missing.msgid == id && id in c {
      var frags, want := c[id].frags, missing.fragndx;
      var more := SentOf(Answer(id, frags, want).0, i);
      SentIsHeld(id, frags, want, i);
      if i < |frags| {
        AnswerWalksOffsets(id, frags, want, i);
        LogsJoin(log, more, frags[i], data);
      }
    } else {
      assert log + [] == log;
    }
  }

  lemma LogsJoin(log: seq<LinkFrag>, more: seq<LinkFrag>, f: CachedFrag, data: seq<byte>)
    requires WalksOffsets(log, data, 0) && f.rotoff == Shifted(0, |log|)
    requires WalksOffsets(more, f.data, f.rotoff) && (more != [] ==> f.data == data)
    ensures WalksOffsets(log + more, data, 0)
    ensures Shifted(f.rotoff, |more|) == Shifted(0, |log + more|)
  {
    forall n: nat ensures Shifted(f.rotoff, n) == Shifted(0, |log| + n) {
      ShiftedSum(0, |log|, n);
    }
  }

  lemma OffsetShows(data: seq<byte>, k: byte)
    requires data != []
    ensures Rotate(data, k) == data <==> k == 0
  {
    assert Rotate(data, k)[0] == Plus(data[0], k);
  }

  /**
    Resend number j uses offset j modulo 256; so it repeats the bytes of the original send exactly
    when 256 divides j, which the first one does.
   */
  lemma ResendOffsets(ops: seq<Op>, id: u64, i: u32, data: seq<byte>, j: nat)
    requires AlwaysCarries(ops, id, i, data) && j < |SentLog(ops, id, i)|
    ensures SentLog(ops, id, i)[j].rotoff == j % 0x100
    ensures data != [] ==> (SentLog(ops, id, i)[j].data == data <==> j % 0x100 == 0)
  {
    LogWalksOffsets(ops, id, i, data);
    ShiftedValue(0, j);
    if data != [] {
      OffsetShows(data, Shifted(0, j));
    }
  }

  /**
    Whatever else the cache does in between, among any |data| consecutive resends of a fragment
    one is free of the pair (a, b), and the receiver of any of them recovers the same data.
   */
  lemma CleanAmongConsecutiveResends(
      ops: seq<Op>, id: u64, i: u32, data: seq<byte>, start: nat, a: byte, b: byte)
    requires AlwaysCarries(ops, id, i, data) && 1 <= |data| <= 0x100
    requires start + |data| <= |SentLog(ops, id, i)|
    ensures exists j :: start <= j < start + |data| && !HasPair(SentLog(ops, id, i)[j].data, a, b)
    ensures forall f :: f in SentLog(ops, id, i) ==> Plain(f) == data
  {
    var log := SentLog(ops, id, i);
    LogWalksOffsets(ops, id, i, data);
    var j := SomeOffsetIsClean(data, Shifted(0, start), a, b);
    ShiftedSum(0, start, j);
    assert !HasPair(log[start + j].data, a, b);
    WalkRecovers(log, data, 0);
  }

  lemma WalkRecovers(log: seq<LinkFrag>, data: seq<byte>, start: byte)
    requires WalksOffsets(log, data, start)
    ensures forall f :: f in log ==> Plain(f) == data
  {
    forall f | f in log ensures Plain(f) == data {
      var k :| 0 <= k < |log| && log[k] == f;
      UnrotateRotate(data, Shifted(start, k));
    }
  }
}
