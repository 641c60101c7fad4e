/** One round of repair: a request, answers from partial caches, and the requester's cache afterwards. */
module Repair {
  import opened Prelude
  import opened FragCache
  import opened Fragmentation

  /** Every slot is empty or holds its chunk of the payload. */
  ghost predicate EntryOf(p: PartialMsg, payload: seq<byte>) {
    && |p.frags| == NumFrag(payload)
    && forall i :: 0 <= i < |p.frags| ==> p.frags[i].data == [] || p.frags[i].data == Chunk(payload, i)
  }

  predicate Holds(c: Cache, id: u64, i: nat) {
    id in c && i < |c[id].frags| && c[id].frags[i].data != []
  }

  /** The cache after hearing these fragments one after the other, and what each handed to the client. */
  function Feed(c: Cache, frags: seq<LinkFrag>, now: nat): (r: (Cache, seq<Option<LinkMsg>>))
    ensures |r.1| == |frags|
  {
    if frags == [] then (c, [])
    else
      var (c', out) := Feed(c, frags[..|frags| - 1], now);
      var (c'', msg) := Add(c', frags[|frags| - 1], true, now);
      (c'', out + [msg])
  }

  predicate Carried(frags: seq<LinkFrag>, i: nat) {
    exists k :: 0 <= k < |frags| && frags[k].fragndx == i
  }

  ghost predicate AllCopies(frags: seq<LinkFrag>, id: u64, payload: seq<byte>) {
    forall k :: 0 <= k < |frags| ==> CopyOf(frags[k], id, payload)
  }

  lemma CarriedStep(frags: seq<LinkFrag>, i: nat)
    requires frags != []
    ensures Carried(frags, i) <==> Carried(frags[..|frags| - 1], i) || frags[|frags| - 1].fragndx == i
  {
    var shorter := frags[..|frags| - 1];
    if Carried(shorter, i) {
      var k :| 0 <= k < |shorter| && shorter[k].fragndx == i;
      assert frags[k].fragndx == i;
    }
    if k :| 0 <= k < |frags| && frags[k].fragndx == i {
      if k < |shorter| { assert shorter[k].fragndx == i; }
    }
  }

  lemma HearFills(c: Cache, id: u64, payload: seq<byte>, frag: LinkFrag, now: nat)
    requires id in c && EntryOf(c[id], payload) && CopyOf(frag, id, payload)
    ensures var c' := Add(c, frag, true, now).0; id in c' && EntryOf(c'[id], payload)
    ensures forall i: nat ::
      Holds(Add(c, frag, true, now).0, id, i) <==> Holds(c, id, i) || frag.fragndx == i
  {
    ChunkSizes(payload, frag.fragndx);
  }

  /** Hearing copies fills exactly the slots they carry; what was held stays held. */
  lemma {:induction false} FeedFills(c: Cache, id: u64, payload: seq<byte>, frags: seq<LinkFrag>, now: nat)
    requires id in c && EntryOf(c[id], payload) && AllCopies(frags, id, payload)
    ensures var c' := Feed(c, frags, now).0; id in c' && EntryOf(c'[id], payload)
    ensures forall i: nat :: i < NumFrag(payload) ==>
      (Holds(Feed(c, frags, now).0, id, i) <==> Holds(c, id, i) || Carried(frags, i))
  {
    if frags != [] {
      var shorter, last := frags[..|frags| - 1], frags[|frags| - 1];
      FeedFills(c, id, payload, shorter, now);
      HearFills(Feed(c, shorter, now).0, id, payload, last, now);
      forall i: nat | i < NumFrag(payload)
        ensures Holds(Feed(c, frags, now).0, id, i) <==> Holds(c, id, i) || Carried(frags, i)
      {
        CarriedStep(frags, i);
      }
    }
  }

  ghost predicate DeliversOnce(out: seq<Option<LinkMsg>>, msg: LinkMsg) {
    exists k :: 0 <= k < |out| && out[k] == Some(msg) && forall j :: 0 <= j < |out| && j != k ==> out[j] == None
  }

  ghost predicate DeliversNothing(out: seq<Option<LinkMsg>>) {
    forall j :: 0 <= j < |out| ==> out[j] == None
  }

  lemma WholeIsJoined(p: PartialMsg, payload: seq<byte>)
    requires EntryOf(p, payload) && Whole(p)
    ensures Joined(Slots(p.frags)) == payload
  {
    assert Slots(p.frags) == Chunks(payload);
    JoinedChunks(payload);
  }

  /** The copies complete a message in progress exactly when they leave no gap, and then deliver it once. */
  lemma {:induction false} FeedDelivers(c: Cache, id: u64, payload: seq<byte>, frags: seq<LinkFrag>, now: nat)
    requires id in c && EntryOf(c[id], payload) && !c[id].completed && !Whole(c[id])
    requires AllCopies(frags, id, payload)
    ensures var (c', out) := Feed(c, frags, now);
      && id in c' && (c'[id].completed <==> Whole(c'[id]))
      && if Whole(c'[id]) then DeliversOnce(out, LinkMsg(id, payload)) else DeliversNothing(out)
  {
    if frags != [] {
      var shorter, last := frags[..|frags| - 1], frags[|frags| - 1];
      FeedDelivers(c, id, payload, shorter, now);
      FeedFills(c, id, payload, shorter, now);
      var (c', out) := Feed(c, shorter, now);
      HearOneMore(c', id, payload, last, now, out);
    }
  }

  lemma HearOneMore(c: Cache, id: u64, payload: seq<byte>, frag: LinkFrag, now: nat, out: seq<Option<LinkMsg>>)
    requires id in c && EntryOf(c[id], payload) && CopyOf(frag, id, payload)
    requires c[id].completed <==> Whole(c[id])
    requires if Whole(c[id]) then DeliversOnce(out, LinkMsg(id, payload)) else DeliversNothing(out)
    ensures var (c', msg) := Add(c, frag, true, now);
      && (c'[id].completed <==> Whole(c'[id]))
      && if Whole(c'[id]) then DeliversOnce(out + [msg], LinkMsg(id, payload)) else DeliversNothing(out + [msg])
  {
    var (c', msg) := Add(c, frag, true, now);
    var p' := Stored(c[id], frag);
    ChunkSizes(payload, frag.fragndx);
    if Whole(c[id]) {
      assert Whole(p');
      var k :| 0 <= k < |out| && out[k] == Some(LinkMsg(id, payload))
        && forall j :: 0 <= j < |out| && j != k ==> out[j] == None;
      assert (out + [msg])[k] == Some(LinkMsg(id, payload));
    } else if Whole(p') {
      WholeIsJoined(p', payload);
      assert (out + [msg])[|out|] == Some(LinkMsg(id, payload));
    }
  }

  /** Exactly the fragments some responder sends in answer to this request, in any order and number. */
  ghost predicate AnswersOf(frags: seq<LinkFrag>, responders: seq<Cache>, request: LinkMissing)
    requires forall j :: 0 <= j < |responders| ==> ValidCache(responders[j])
  {
    forall f :: f in frags <==> exists j :: 0 <= j < |responders| && f in Fulfill(responders[j], request).1
  }

  predicate SomeoneHolds(responders: seq<Cache>, id: u64, i: nat) {
    exists j :: 0 <= j < |responders| && Holds(responders[j], id, i)
  }

  ghost predicate GoodResponders(responders: seq<Cache>, id: u64, payload: seq<byte>) {
    forall j :: 0 <= j < |responders| ==>
      ValidCache(responders[j]) && (id in responders[j] ==> EntryOf(responders[j][id], payload))
  }

  lemma AnswersAreCopies(frags: seq<LinkFrag>, responders: seq<Cache>, request: LinkMissing, payload: seq<byte>)
    requires GoodResponders(responders, request.msgid, payload) && AnswersOf(frags, responders, request)
    ensures AllCopies(frags, request.msgid, payload)
    ensures forall i: nat :: Carried(frags, i) ==> i in request.fragndx && SomeoneHolds(responders, request.msgid, i)
  {
    forall k | 0 <= k < |frags|
      ensures CopyOf(frags[k], request.msgid, payload)
      ensures frags[k].fragndx in request.fragndx && SomeoneHolds(responders, request.msgid, frags[k].fragndx)
    {
      assert frags[k] in frags;
      var j :| 0 <= j < |responders| && frags[k] in Fulfill(responders[j], request).1;
      var r := responders[j];
      AnswerIsHeldData(request.msgid, r[request.msgid].frags, request.fragndx);
      assert Holds(r, request.msgid, frags[k].fragndx);
    }
  }

  lemma HeldIsCarried(frags: seq<LinkFrag>, responders: seq<Cache>, request: LinkMissing, payload: seq<byte>, i: u32)
    requires GoodResponders(responders, request.msgid, payload) && AnswersOf(frags, responders, request)
    requires i in request.fragndx && SomeoneHolds(responders, request.msgid, i)
    ensures Carried(frags, i)
  {
    var j :| 0 <= j < |responders| && Holds(responders[j], request.msgid, i);
    var held := responders[j][request.msgid].frags;
    AnswerSendsHeld(request.msgid, held, request.fragndx, i);
    var sent := Fulfill(responders[j], request).1;
    var m :| 0 <= m < |sent| && sent[m].fragndx == i;
    assert sent[m] in frags;
    var k :| 0 <= k < |frags| && frags[k] == sent[m];
  }

  /**
    One lossless round of repair. The requester asks for exactly its gap; the missing set loses
    exactly the indices some responder holds; and the message is completed and delivered,
    once, exactly when the responders together hold the whole gap.
   */
  lemma RepairRound(
      c: Cache, id: u64, payload: seq<byte>, responders: seq<Cache>, request: LinkMissing,
      frags: seq<LinkFrag>, now: nat)
    requires ValidCache(c) && id in c && EntryOf(c[id], payload) && !c[id].completed && !Whole(c[id])
    requires GoodResponders(responders, id, payload)
    requires request == LinkMissing(id, Missing(c[id])) && AnswersOf(frags, responders, request)
    ensures var (c', out) := Feed(c, frags, now);
      && id in c' && EntryOf(c'[id], payload)
      && (forall i: nat :: i < NumFrag(payload) ==>
        (!Holds(c', id, i) <==> !Holds(c, id, i) && !SomeoneHolds(responders, id, i)))
      && (DeliversOnce(out, LinkMsg(id, payload)) <==>
        forall i: u32 :: i in Missing(c[id]) ==> SomeoneHolds(responders, id, i))
      && (DeliversOnce(out, LinkMsg(id, payload)) || DeliversNothing(out))
  {
    AnswersAreCopies(frags, responders, request, payload);
    FeedFills(c, id, payload, frags, now);
    FeedDelivers(c, id, payload, frags, now);
    var (c', out) := Feed(c, frags, now);
    forall i: nat | i < NumFrag(payload)
      ensures !Holds(c', id, i) <==> !Holds(c, id, i) && !SomeoneHolds(responders, id, i)
    {
      if !Holds(c, id, i) && SomeoneHolds(responders, id, i) {
        assert i in Missing(c[id]);
        HeldIsCarried(frags, responders, request, payload, i);
      }
    }
    GapClosed(c, c', id, payload, responders);
  }

  lemma GapClosed(c: Cache, c': Cache, id: u64, payload: seq<byte>, responders: seq<Cache>)
    requires ValidCache(c) && id in c && EntryOf(c[id], payload) && id in c' && EntryOf(c'[id], payload)
    requires forall i: nat :: i < NumFrag(payload) ==>
      (!Holds(c', id, i) <==> !Holds(c, id, i) && !SomeoneHolds(responders, id, i))
    ensures Whole(c'[id]) <==> forall i: u32 :: i in Missing(c[id]) ==> SomeoneHolds(responders, id, i)
  {
    if Whole(c'[id]) {
      forall i: u32 | i in Missing(c[id]) ensures SomeoneHolds(responders, id, i) {
        assert Holds(c', id, i) && !Holds(c, id, i);
      }
    }
    if forall i: u32 :: i in Missing(c[id]) ==> SomeoneHolds(responders, id, i) {
      forall i | 0 <= i < |c'[id].frags| ensures c'[id].frags[i].data != [] {
        if !Holds(c, id, i) {
          assert i in Missing(c[id]);
        }
        assert Holds(c', id, i);
      }
    }
  }
}
