/**
  The fragment cache: every node keeps the fragments it has heard or sent, reassembles
  complete messages, asks for missing fragments and answers other nodes' requests.
 */
module FragCache {
  import opened Prelude
  import opened Rotation

  datatype LinkFrag = LinkFrag(msgid: u64, numfrag: u32, fragndx: u32, rotoff: u32, data: seq<byte>)
  datatype LinkMsg = LinkMsg(msgid: u64, data: seq<byte>)
  datatype LinkMissing = LinkMissing(msgid: u64, fragndx: seq<u32>)

  /** A message being collected; a slot with empty data is missing. */
  datatype PartialMsg = PartialMsg(
    inbound: bool, created: nat, lasttry: nat, nretries: nat, completed: bool, frags: seq<CachedFrag>)

  /** The entries by message id base; every key of the source's tree has no fragment part. */
  type Cache = map<u64, PartialMsg>

  const MAX_AGE_SECS: nat := 300
  const OVERDUE_SECS: nat := 60

  // ---- adding a fragment ----

  function NewPartial(frag: LinkFrag, inbound: bool, now: nat): PartialMsg {
    PartialMsg(inbound, now, now, 0, false, seq(frag.numfrag, _ => CachedFrag(0, [])))
  }

  function EntryFor(c: Cache, frag: LinkFrag, inbound: bool, now: nat): PartialMsg {
    if frag.msgid in c then c[frag.msgid] else NewPartial(frag, inbound, now)
  }

  predicate InRange(p: PartialMsg, frag: LinkFrag) {
    frag.fragndx < |p.frags|
  }

  /** The payload bytes a fragment carries, whatever offset it was sent with. */
  function Plain(frag: LinkFrag): seq<byte> {
    Unrotate(frag.data, frag.rotoff % 0x100)
  }

  function Stored(p: PartialMsg, frag: LinkFrag): PartialMsg
    requires InRange(p, frag)
  {
    p.(frags := p.frags[frag.fragndx := p.frags[frag.fragndx].(data := Plain(frag))])
  }

  predicate Whole(p: PartialMsg) {
    forall i :: 0 <= i < |p.frags| ==> p.frags[i].data != []
  }

  function Slots(frags: seq<CachedFrag>): (r: seq<seq<byte>>)
    ensures |r| == |frags|
    ensures forall i :: 0 <= i < |r| ==> r[i] == frags[i].data
  {
    seq(|frags|, i requires 0 <= i < |frags| => frags[i].data)
  }

  /** The entry after a fragment arrives, and the message handed to the client if this completed it. */
  function AddToEntry(p: PartialMsg, frag: LinkFrag, inbound: bool): (PartialMsg, Option<LinkMsg>) {
    if !InRange(p, frag) then (p, None)
    else
      var p' := Stored(p, frag);
      if !p'.completed && inbound && Whole(p')
      then (p'.(completed := true), Some(LinkMsg(frag.msgid, Joined(Slots(p'.frags)))))
      else (p', None)
  }

  function Add(c: Cache, frag: LinkFrag, inbound: bool, now: nat): (Cache, Option<LinkMsg>) {
    var (p, msg) := AddToEntry(EntryFor(c, frag, inbound, now), frag, inbound);
    (c[frag.msgid := p], msg)
  }

  // ---- asking for what is missing ----

  /** Indices of the empty slots from i on. */
  function MissingFrom(frags: seq<CachedFrag>, i: nat): (r: seq<u32>)
    requires i <= |frags| < 0x1_0000_0000
    ensures forall j :: 0 <= j < |r| ==> i <= r[j] < |frags| && frags[r[j]].data == []
    ensures forall k :: i <= k < |frags| && frags[k].data == [] ==> k in r
    ensures forall a, b :: 0 <= a < b < |r| ==> r[a] < r[b]
    decreases |frags| - i
  {
    if i == |frags| then []
    else
      var rest := MissingFrom(frags, i + 1);
      if frags[i].data == [] then [i] + rest else rest
  }

  function Missing(p: PartialMsg): (r: seq<u32>)
    requires |p.frags| < 0x1_0000_0000
  {
    MissingFrom(p.frags, 0)
  }

  /** A request goes out for p at this clock reading. */
  predicate Due(p: PartialMsg, now: nat) {
    && now < p.created + MAX_AGE_SECS
    && p.lasttry + OVERDUE_SECS <= now
    && !Whole(p)
  }

  function Asked(p: PartialMsg, now: nat): PartialMsg {
    if Due(p, now) then p.(lasttry := now) else p
  }

  function AfterOverdue(c: Cache, now: nat): (c': Cache) {
    map id | id in c :: Asked(c[id], now)
  }

  ghost predicate ValidCache(c: Cache) {
    forall id :: id in c ==> |c[id].frags| < 0x1_0000_0000
  }

  /** Exactly the overdue entries are asked for, in ascending order of id, each with exactly its empty slots. */
  ghost predicate IsRequestFor(reqs: seq<LinkMissing>, c: Cache, now: nat)
    requires ValidCache(c)
  {
    && (forall i, j :: 0 <= i < j < |reqs| ==> reqs[i].msgid < reqs[j].msgid)
    && (forall i :: 0 <= i < |reqs| ==> IsRequest(reqs[i], c, now))
    && (forall id :: id in c && Due(c[id], now) ==> RequestedIn(reqs, id))
  }

  ghost predicate IsRequest(req: LinkMissing, c: Cache, now: nat)
    requires ValidCache(c)
  {
    req.msgid in c && Due(c[req.msgid], now) && req.fragndx == Missing(c[req.msgid])
  }

  ghost predicate RequestedIn(reqs: seq<LinkMissing>, id: u64) {
    exists i :: 0 <= i < |reqs| && reqs[i].msgid == id
  }

  /** The requests for the entries with these keys. */
  ghost predicate IsRequestAmong(reqs: seq<LinkMissing>, c: Cache, keys: seq<u64>, now: nat)
    requires ValidCache(c)
  {
    && (forall i, j :: 0 <= i < j < |reqs| ==> reqs[i].msgid < reqs[j].msgid)
    && (forall i :: 0 <= i < |reqs| ==> reqs[i].msgid in keys && IsRequest(reqs[i], c, now))
    && (forall id :: id in keys && id in c && Due(c[id], now) ==> RequestedIn(reqs, id))
  }

  /** The cache when only the entries with these keys have had their turn. */
  function AskedAmong(c: Cache, keys: seq<u64>, now: nat): Cache {
    map id | id in c :: if id in keys then Asked(c[id], now) else c[id]
  }

  lemma AskedOneMore(c: Cache, keys: seq<u64>, i: nat, now: nat)
    requires i < |keys| && keys[i] in c
    requires forall j :: 0 <= j < i ==> keys[j] < keys[i]
    ensures AskedAmong(c, keys[..i], now)[keys[i]] == c[keys[i]]
    ensures AskedAmong(c, keys[..i + 1], now) == AskedAmong(c, keys[..i], now)[keys[i] := Asked(c[keys[i]], now)]
    ensures !Due(c[keys[i]], now) ==> AskedAmong(c, keys[..i + 1], now) == AskedAmong(c, keys[..i], now)
  {
    assert keys[..i + 1] == keys[..i] + [keys[i]];
    var before, after := AskedAmong(c, keys[..i], now), AskedAmong(c, keys[..i + 1], now);
    assert after == before[keys[i] := Asked(c[keys[i]], now)];
    if !Due(c[keys[i]], now) {
      assert after == before;
    }
  }

  lemma AskedAll(c: Cache, keys: seq<u64>, now: nat)
    requires forall id :: id in keys <==> id in c
    ensures AskedAmong(c, keys, now) == AfterOverdue(c, now)
  {
  }

  lemma RequestNoMore(reqs: seq<LinkMissing>, c: Cache, keys: seq<u64>, i: nat, now: nat)
    requires ValidCache(c) && i < |keys| && IsRequestAmong(reqs, c, keys[..i], now)
    requires keys[i] in c && !Due(c[keys[i]], now)
    ensures IsRequestAmong(reqs, c, keys[..i + 1], now)
  {
    assert keys[..i + 1] == keys[..i] + [keys[i]];
  }

  lemma RequestOneMore(reqs: seq<LinkMissing>, req: LinkMissing, c: Cache, keys: seq<u64>, i: nat, now: nat)
    requires ValidCache(c) && i < |keys| && IsRequestAmong(reqs, c, keys[..i], now)
    requires req.msgid == keys[i] && IsRequest(req, c, now)
    requires forall j :: 0 <= j < i ==> keys[j] < keys[i]
    ensures IsRequestAmong(reqs + [req], c, keys[..i + 1], now)
  {
    var all := reqs + [req];
    assert keys[..i + 1] == keys[..i] + [keys[i]];
    forall id | id in keys[..i + 1] && id in c && Due(c[id], now) ensures RequestedIn(all, id) {
      if id == req.msgid {
        assert all[|reqs|].msgid == id;
      } else {
        assert RequestedIn(reqs, id);
        var j :| 0 <= j < |reqs| && reqs[j].msgid == id;
        assert all[j].msgid == id;
      }
    }
  }

  /** A request never asks for nothing: a message without a gap is not in it. */
  lemma RequestsHaveGaps(reqs: seq<LinkMissing>, c: Cache, now: nat)
    requires ValidCache(c) && IsRequestFor(reqs, c, now)
    ensures forall i :: 0 <= i < |reqs| ==> reqs[i].fragndx != []
    ensures forall id :: id in c && (forall i :: 0 <= i < |c[id].frags| ==> c[id].frags[i].data != []) ==>
      !RequestedIn(reqs, id)
  {
    forall i | 0 <= i < |reqs| ensures reqs[i].fragndx != [] && !Whole(c[reqs[i].msgid]) {
      assert IsRequest(reqs[i], c, now);
      NothingMissing(c[reqs[i].msgid]);
    }
  }

  // ---- answering a request ----

  /** Walk the requested indices: every held one is sent once more, with its next rotation. */
  function Answer(id: u64, frags: seq<CachedFrag>, want: seq<u32>): (r: (seq<LinkFrag>, seq<CachedFrag>))
    requires |frags| < 0x1_0000_0000
    ensures |r.1| == |frags|
    decreases |want|
  {
    if want == [] then ([], frags)
    else
      var (sent, frags') := Answer(id, frags, want[..|want| - 1]);
      var k := want[|want| - 1];
      if k < |frags'| && frags'[k].data != [] then
        var (rotoff, data, f') := RotateOctets(frags'[k]);
        (sent + [LinkFrag(id, |frags'|, k, rotoff, data)], frags'[k := f'])
      else (sent, frags')
  }

  function Fulfill(c: Cache, missing: LinkMissing): (Cache, seq<LinkFrag>)
    requires ValidCache(c)
  {
    if missing.msgid in c then
      var p := c[missing.msgid];
      var (sent, frags) := Answer(missing.msgid, p.frags, missing.fragndx);
      (c[missing.msgid := p.(frags := frags)], sent)
    else (c, [])
  }

  /** Answering changes rotations only: the cached data stays. */
  lemma {:induction false} AnswerKeepsData(id: u64, frags: seq<CachedFrag>, want: seq<u32>)
    requires |frags| < 0x1_0000_0000
    ensures Slots(Answer(id, frags, want).1) == Slots(frags)
  {
    if want != [] {
      AnswerKeepsData(id, frags, want[..|want| - 1]);
      var before := Answer(id, frags, want[..|want| - 1]).1;
      forall i | 0 <= i < |frags| ensures Answer(id, frags, want).1[i].data == frags[i].data {
        assert Slots(before)[i] == Slots(frags)[i];
      }
    }
  }

  /** A sent fragment carries the cached data of a requested, held slot. */
  ghost predicate Answers(frag: LinkFrag, id: u64, frags: seq<CachedFrag>, want: seq<u32>)
    requires |frags| < 0x1_0000_0000
  {
    && frag.msgid == id && frag.numfrag == |frags|
    && frag.fragndx in want && frag.fragndx < |frags|
    && Plain(frag) == frags[frag.fragndx].data && Plain(frag) != []
  }

  lemma {:induction false} AnswerIsHeldData(id: u64, frags: seq<CachedFrag>, want: seq<u32>)
    requires |frags| < 0x1_0000_0000
    ensures forall j :: 0 <= j < |Answer(id, frags, want).0| ==>
      Answers(Answer(id, frags, want).0[j], id, frags, want)
  {
    if want != [] {
      var shorter, k := want[..|want| - 1], want[|want| - 1];
      var (sent, before) := Answer(id, frags, shorter);
      AnswerIsHeldData(id, frags, shorter);
      AnswerKeepsData(id, frags, shorter);
      forall j | 0 <= j < |Answer(id, frags, want).0|
        ensures Answers(Answer(id, frags, want).0[j], id, frags, want)
      {
        if j < |sent| {
          assert Answers(sent[j], id, frags, shorter);
        } else {
          assert Slots(before)[k] == Slots(frags)[k];
          UnrotateRotate(before[k].data, before[k].rotoff);
        }
      }
    }
  }

  lemma {:induction false} AnswerSendsHeld(id: u64, frags: seq<CachedFrag>, want: seq<u32>, k: u32)
    requires |frags| < 0x1_0000_0000
    requires k in want && k < |frags| && frags[k].data != []
    ensures exists j :: 0 <= j < |Answer(id, frags, want).0| && Answer(id, frags, want).0[j].fragndx == k
  {
    var shorter, last := want[..|want| - 1], want[|want| - 1];
    var (sent, before) := Answer(id, frags, shorter);
    var all := Answer(id, frags, want).0;
    AnswerKeepsData(id, frags, shorter);
    assert want == shorter + [last];
    if k == last {
      assert Slots(before)[k] == Slots(frags)[k];
      assert all[|sent|].fragndx == k;
    } else {
      AnswerSendsHeld(id, frags, shorter, k);
      var j :| 0 <= j < |sent| && sent[j].fragndx == k;
      assert all[j].fragndx == k;
    }
  }

  function Held(frags: seq<CachedFrag>): u32 -> bool {
    (k: u32) => k < |frags| && frags[k].data != []
  }

  function Indices(sent: seq<LinkFrag>): (r: seq<u32>)
    ensures |r| == |sent|
  {
    seq(|sent|, j requires 0 <= j < |sent| => sent[j].fragndx)
  }

  /** Each requested index that is held is answered once for each time it is asked for, in the order of the request. */
  lemma {:induction false} AnswerInRequestOrder(id: u64, frags: seq<CachedFrag>, want: seq<u32>)
    requires |frags| < 0x1_0000_0000
    ensures Indices(Answer(id, frags, want).0) == Retain<u32>(want, Held(frags))
  {
    if want != [] {
      var shorter, k := want[..|want| - 1], want[|want| - 1];
      AnswerInRequestOrder(id, frags, shorter);
      AnswerKeepsData(id, frags, shorter);
      var before := Answer(id, frags, shorter).1;
      RetainAppend<u32>(shorter, k, Held(frags));
      assert want == shorter + [k];
      assert k < |frags| ==> Slots(before)[k] == Slots(frags)[k];
      var sent, all := Answer(id, frags, shorter).0, Answer(id, frags, want).0;
      assert Indices(all) == Indices(sent) + if Held(frags)(k) then [k] else [];
    }
  }

  // ---- the cache object ----

  class FragmentCache {
    var partials: Cache

    ghost predicate Valid()
      reads this
    {
      ValidCache(partials)
    }

    constructor ()
      ensures Valid() && partials == map[]
    {
      partials := map[];
    }

    method AddFragment(frag: LinkFrag, inbound: bool, now: nat) returns (msg: Option<LinkMsg>)
      requires Valid()
      modifies this
      ensures Valid()
      ensures (partials, msg) == Add(old(partials), frag, inbound, now)
    {
      if frag.msgid !in partials {
        partials := partials[frag.msgid := NewPartial(frag, inbound, now)];
      }
      var p := partials[frag.msgid];
      if frag.fragndx < |p.frags| {
        p := p.(frags := p.frags[frag.fragndx := p.frags[frag.fragndx].(data := Plain(frag))]);
        partials := partials[frag.msgid := p];
      } else {
        assert partials == old(partials)[frag.msgid := p];
        return None;
      }
      if !p.completed && inbound && Whole(p) {
        var completeData: seq<byte> := [];
        ghost var slots := Slots(p.frags);
        for i := 0 to |p.frags|
          invariant completeData == Joined(slots[..i])
        {
          assert slots[..i + 1][..i] == slots[..i];
          completeData := completeData + p.frags[i].data;
        }
        assert slots[..|p.frags|] == slots;
        partials := partials[frag.msgid := p.(completed := true)];
        assert partials == old(partials)[frag.msgid := p.(completed := true)];
        return Some(LinkMsg(frag.msgid, completeData));
      }
      assert partials == old(partials)[frag.msgid := p];
      return None;
    }

    method OverdueMissing(now: nat) returns (reqs: seq<LinkMissing>)
      requires Valid()
      modifies this
      ensures Valid()
      ensures partials == AfterOverdue(old(partials), now)
      ensures IsRequestFor(reqs, old(partials), now)
    {
      ghost var c := partials;
      var keys := Ascending(partials.Keys);
      reqs := [];
      for i := 0 to |keys|
        invariant partials == AskedAmong(c, keys[..i], now)
        invariant IsRequestAmong(reqs, c, keys[..i], now)
      {
        AskedOneMore(c, keys, i, now);
        var p := partials[keys[i]];
        var missing := Missing(p);
        NothingMissing(p);
        if now >= p.created + MAX_AGE_SECS || now < p.lasttry + OVERDUE_SECS || missing == [] {
          RequestNoMore(reqs, c, keys, i, now);
        } else {
          partials := partials[keys[i] := p.(lasttry := now)];
          RequestOneMore(reqs, LinkMissing(keys[i], missing), c, keys, i, now);
          reqs := reqs + [LinkMissing(keys[i], missing)];
        }
      }
      assert keys[..|keys|] == keys;
      AskedAll(c, keys, now);
    }

    method FulfillMissing(missing: LinkMissing) returns (sent: seq<LinkFrag>)
      requires Valid()
      modifies this
      ensures Valid()
      ensures (partials, sent) == Fulfill(old(partials), missing)
    {
      sent := [];
      if missing.msgid in partials {
        var p := partials[missing.msgid];
        var frags := p.frags;
        for i := 0 to |missing.fragndx|
          invariant (sent, frags) == Answer(missing.msgid, p.frags, missing.fragndx[..i])
        {
          assert missing.fragndx[..i + 1][..i] == missing.fragndx[..i];
          var k := missing.fragndx[i];
          if k < |frags| {
            if frags[k].data == [] {
              continue;
            }
            var (rotoff, data, f) := RotateOctets(frags[k]);
            sent := sent + [LinkFrag(missing.msgid, |frags|, k, rotoff, data)];
            frags := frags[k := f];
          }
        }
        assert missing.fragndx[..|missing.fragndx|] == missing.fragndx;
        partials := partials[missing.msgid := p.(frags := frags)];
      }
    }
  }

  lemma NothingMissing(p: PartialMsg)
    requires |p.frags| < 0x1_0000_0000
    ensures Missing(p) == [] <==> Whole(p)
  {
    var r := Missing(p);
    if r != [] {
      assert r[0] in r;
    }
    if !Whole(p) {
      var k :| 0 <= k < |p.frags| && p.frags[k].data == [];
      assert k in r;
    }
  }

  /** The keys in the order in which the source's tree map is walked. */
  method Ascending(ids: set<u64>) returns (keys: seq<u64>)
    ensures forall i, j :: 0 <= i < j < |keys| ==> keys[i] < keys[j]
    ensures forall x :: x in keys <==> x in ids
  {
    keys := [];
    var todo := ids;
    while todo != {}
      invariant todo <= ids
      invariant forall i, j :: 0 <= i < j < |keys| ==> keys[i] < keys[j]
      invariant forall i, x :: 0 <= i < |keys| && x in todo ==> keys[i] < x
      invariant forall x :: x in keys <==> x in ids - todo
      decreases |todo|
    {
      var m := Least(todo);
      todo := todo - {m};
      keys := keys + [m];
    }
  }

  method Least(ids: set<u64>) returns (m: u64)
    requires ids != {}
    ensures m in ids && forall x :: x in ids ==> m <= x
  {
    m :| m in ids;
    var rest := ids - {m};
    while rest != {}
      invariant m in ids && rest <= ids
      invariant forall x :: x in ids && x !in rest ==> m <= x
      decreases |rest|
    {
      var x :| x in rest;
      rest := rest - {x};
      if x < m {
        m := x;
      }
    }
  }
}
