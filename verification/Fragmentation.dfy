/** Cutting a payload into chunks, and getting it back from any hearing of their copies. */
module Fragmentation {
  import opened Prelude
  import opened FragCache
  import opened FragHistory

  const LINK_FRAG_THRESH: nat := 200

  function NumFrag(payload: seq<byte>): nat {
    (|payload| + LINK_FRAG_THRESH - 1) / LINK_FRAG_THRESH
  }

  function ChunkEnd(payload: seq<byte>, i: nat): nat {
    if LINK_FRAG_THRESH * i <= |payload| then LINK_FRAG_THRESH * i else |payload|
  }

  function Chunk(payload: seq<byte>, i: nat): seq<byte>
    requires i < NumFrag(payload)
  {
    payload[ChunkEnd(payload, i)..ChunkEnd(payload, i + 1)]
  }

  function Chunks(payload: seq<byte>): (r: seq<seq<byte>>)
    ensures |r| == NumFrag(payload)
  {
    seq(NumFrag(payload), i requires 0 <= i < NumFrag(payload) => Chunk(payload, i))
  }

  /** The payloads that are fragmented, up to what a 32-bit fragment count can number. */
  predicate Fragmented(payload: seq<byte>) {
    LINK_FRAG_THRESH < |payload| <= LINK_FRAG_THRESH * 0xFFFF_FFFF
  }

  /** No chunk is empty, all but the last are full, and the count is the length over 200, rounded up. */
  lemma ChunkSizes(payload: seq<byte>, i: nat)
    requires i < NumFrag(payload)
    ensures 200 * (NumFrag(payload) - 1) < |payload| <= 200 * NumFrag(payload)
    ensures 1 <= |Chunk(payload, i)| <= 200
    ensures i < NumFrag(payload) - 1 ==> |Chunk(payload, i)| == 200
  {
  }

  /** The chunks in order are the payload. */
  lemma JoinedChunks(payload: seq<byte>)
    ensures Joined(Chunks(payload)) == payload
  {
    JoinedPrefix(payload, NumFrag(payload));
    assert Chunks(payload)[..NumFrag(payload)] == Chunks(payload);
    assert payload[..|payload|] == payload;
  }

  lemma {:induction false} JoinedPrefix(payload: seq<byte>, i: nat)
    requires i <= NumFrag(payload)
    ensures Joined(Chunks(payload)[..i]) == payload[..ChunkEnd(payload, i)]
  {
    if i > 0 {
      JoinedPrefix(payload, i - 1);
      assert Chunks(payload)[..i][..i - 1] == Chunks(payload)[..i - 1];
    }
  }

  /** A fragment that carries one chunk of the payload, sent with any rotation. */
  predicate CopyOf(frag: LinkFrag, id: u64, payload: seq<byte>) {
    && frag.msgid == id && frag.numfrag == NumFrag(payload)
    && frag.fragndx < NumFrag(payload)
    && Plain(frag) == Chunk(payload, frag.fragndx)
  }

  /** Every fragment of this message, heard or local, is a copy of one of its chunks; other messages are free. */
  ghost predicate OnlyCopies(ops: seq<Op>, id: u64, payload: seq<byte>) {
    forall k :: 0 <= k < |ops| && Concerns(ops[k], id) ==> CopyOf(ops[k].frag, id, payload)
  }

  ghost predicate Came(ops: seq<Op>, id: u64, i: u32) {
    exists k :: 0 <= k < |ops| && Concerns(ops[k], id) && ops[k].frag.fragndx == i
  }

  ghost predicate AllCame(ops: seq<Op>, id: u64, payload: seq<byte>) {
    forall i: u32 :: i < NumFrag(payload) ==> Came(ops, id, i)
  }

  lemma CameStep(ops: seq<Op>, id: u64, i: u32)
    requires ops != []
    ensures Came(ops, id, i) <==>
      Came(ops[..|ops| - 1], id, i) || (Concerns(ops[|ops| - 1], id) && ops[|ops| - 1].frag.fragndx == i)
  {
    var prefix := ops[..|ops| - 1];
    if Came(prefix, id, i) {
      var k :| 0 <= k < |prefix| && Concerns(prefix[k], id) && prefix[k].frag.fragndx == i;
      assert ops[k] == prefix[k];
    }
    if Came(ops, id, i) {
      var k :| 0 <= k < |ops| && Concerns(ops[k], id) && ops[k].frag.fragndx == i;
      if k < |prefix| {
        assert prefix[k] == ops[k];
      }
    }
  }

  /** With copies only, a slot holds its chunk once some copy of it came, and is empty before. */
  lemma {:induction false} WritesAreChunks(ops: seq<Op>, id: u64, payload: seq<byte>, i: u32)
    requires OnlyCopies(ops, id, payload) && i < NumFrag(payload)
    ensures LastWrite(ops, id, i) == if Came(ops, id, i) then Chunk(payload, i) else []
    ensures Came(ops, id, i) ==> SlotCount(ops, id).Some?
    ensures SlotCount(ops, id).Some? ==> SlotCount(ops, id).value == NumFrag(payload)
  {
    if ops != [] {
      assert OnlyCopies(ops[..|ops| - 1], id, payload);
      WritesAreChunks(ops[..|ops| - 1], id, payload, i);
      CameStep(ops, id, i);
    }
  }

  lemma AllWrittenIffAllCame(ops: seq<Op>, id: u64, payload: seq<byte>)
    requires OnlyCopies(ops, id, payload) && Fragmented(payload)
    ensures AllWritten(ops, id) <==> AllCame(ops, id, payload)
    ensures AllCame(ops, id, payload) ==>
      SlotCount(ops, id).Some? && Written(ops, id) == Chunks(payload)
  {
    forall i: u32 | i < NumFrag(payload)
      ensures LastWrite(ops, id, i) == if Came(ops, id, i) then Chunk(payload, i) else []
      ensures Chunk(payload, i) != []
      ensures Came(ops, id, i) ==> SlotCount(ops, id).Some?
      ensures SlotCount(ops, id).Some? ==> SlotCount(ops, id).value == NumFrag(payload)
    {
      WritesAreChunks(ops, id, payload, i);
      ChunkSizes(payload, i);
    }
    WritesAreChunks(ops, id, payload, 0);
    if AllCame(ops, id, payload) {
      assert Came(ops, id, 0);
      assert Written(ops, id) == Chunks(payload);
    }
  }

  /** Call k completes the message exactly when it is a heard copy and by then every chunk has come. */
  lemma CompletingIffAllCame(ops: seq<Op>, k: nat, id: u64, payload: seq<byte>)
    requires k < |ops| && OnlyCopies(ops, id, payload) && Fragmented(payload)
    ensures Completing(ops, k, id) <==>
      Concerns(ops[k], id) && ops[k].inbound && AllCame(ops[..k + 1], id, payload)
  {
    var upto := ops[..k + 1];
    assert OnlyCopies(upto, id, payload);
    AllWrittenIffAllCame(upto, id, payload);
    WritesAreChunks(upto, id, payload, 0);
  }

  ghost predicate DeliveredAt(ops: seq<Op>, k: nat, id: u64) {
    k < |ops| && Output(ops, k).Some? && Output(ops, k).value.msgid == id
  }

  /** What is delivered under this id is the payload, byte for byte. */
  lemma DeliveryIsPayload(ops: seq<Op>, k: nat, id: u64, payload: seq<byte>)
    requires OnlyCopies(ops, id, payload) && Fragmented(payload) && DeliveredAt(ops, k, id)
    ensures Output(ops, k) == Some(LinkMsg(id, payload))
  {
    DeliveredExactlyAtFirstCompletion(ops, k, id);
    CompletingIffAllCame(ops, k, id, payload);
    assert OnlyCopies(ops[..k + 1], id, payload);
    AllWrittenIffAllCame(ops[..k + 1], id, payload);
    JoinedChunks(payload);
  }

  ghost predicate AllHeard(ops: seq<Op>, id: u64) {
    forall k :: 0 <= k < |ops| && Concerns(ops[k], id) ==> ops[k].inbound
  }

  lemma {:induction false} SomeCompletion(ops: seq<Op>, n: nat, id: u64, payload: seq<byte>)
    requires n <= |ops| && OnlyCopies(ops, id, payload) && Fragmented(payload)
    requires AllHeard(ops, id) && AllCame(ops[..n], id, payload)
    ensures exists k :: 0 <= k < n && Completing(ops, k, id)
  {
    assert Came(ops[..n], id, 0);
    if Concerns(ops[n - 1], id) {
      CompletingIffAllCame(ops, n - 1, id, payload);
    } else {
      var shorter := ops[..n - 1];
      assert ops[..n][..n - 1] == shorter;
      forall i: u32 | i < NumFrag(payload) ensures Came(shorter, id, i) {
        CameStep(ops[..n], id, i);
      }
      SomeCompletion(ops, n - 1, id, payload);
    }
  }

  lemma AllCameGrows(ops: seq<Op>, m: nat, n: nat, id: u64, payload: seq<byte>)
    requires m <= n <= |ops| && AllCame(ops[..m], id, payload)
    ensures AllCame(ops[..n], id, payload)
  {
    forall i: u32 | i < NumFrag(payload) ensures Came(ops[..n], id, i) {
      assert Came(ops[..m], id, i);
      var k :| 0 <= k < m && Concerns(ops[..m][k], id) && ops[..m][k].frag.fragndx == i;
      assert ops[..n][k] == ops[..m][k];
    }
  }

  /**
    Heard copies of the chunks, in any order, with any duplicates, any rotation of each copy and any
    other traffic in between: the message is delivered at the very call by which the last
    chunk has come.
   */
  lemma DeliveredWhenLastChunkComes(ops: seq<Op>, k: nat, id: u64, payload: seq<byte>)
    requires k < |ops| && OnlyCopies(ops, id, payload) && AllHeard(ops, id) && Fragmented(payload)
    ensures DeliveredAt(ops, k, id) <==>
      AllCame(ops[..k + 1], id, payload) && !AllCame(ops[..k], id, payload)
  {
    DeliveredExactlyAtFirstCompletion(ops, k, id);
    CompletingIffAllCame(ops, k, id, payload);
    if AllCame(ops[..k], id, payload) {
      SomeCompletion(ops, k, id, payload);
    } else {
      forall j | 0 <= j < k ensures !Completing(ops, j, id) {
        CompletingIffAllCame(ops, j, id, payload);
        if AllCame(ops[..j + 1], id, payload) {
          AllCameGrows(ops, j + 1, k, id, payload);
        }
      }
      if AllCame(ops[..k + 1], id, payload) && !Concerns(ops[k], id) {
        assert ops[..k + 1][..k] == ops[..k];
        forall i: u32 | i < NumFrag(payload) ensures Came(ops[..k], id, i) {
          CameStep(ops[..k + 1], id, i);
        }
      }
    }
  }

  /** Fragmenting and hearing is a round trip: the payload comes out exactly when every chunk has come. */
  lemma PayloadRoundTrip(ops: seq<Op>, id: u64, payload: seq<byte>)
    requires OnlyCopies(ops, id, payload) && AllHeard(ops, id) && Fragmented(payload)
    ensures (exists k :: 0 <= k < |ops| && Output(ops, k) == Some(LinkMsg(id, payload)))
       <==> AllCame(ops, id, payload)
  {
    if k :| 0 <= k < |ops| && Output(ops, k) == Some(LinkMsg(id, payload)) {
      DeliveredWhenLastChunkComes(ops, k, id, payload);
      AllCameGrows(ops, k + 1, |ops|, id, payload);
      assert ops[..|ops|] == ops;
    }
    if AllCame(ops, id, payload) {
      assert ops[..|ops|] == ops;
      var k := LastChunk(ops, |ops|, id, payload);
      DeliveredWhenLastChunkComes(ops, k, id, payload);
      DeliveryIsPayload(ops, k, id, payload);
    }
  }

  lemma {:induction false} LastChunk(ops: seq<Op>, n: nat, id: u64, payload: seq<byte>) returns (k: nat)
    requires n <= |ops| && Fragmented(payload) && AllCame(ops[..n], id, payload)
    ensures k < n && AllCame(ops[..k + 1], id, payload) && !AllCame(ops[..k], id, payload)
  {
    assert Came(ops[..n], id, 0);
    if AllCame(ops[..n - 1], id, payload) {
      k := LastChunk(ops, n - 1, id, payload);
    } else {
      k := n - 1;
    }
  }

  /**
    A node that cached all chunks of its own message hands that message to its client once:
    at the first copy of any chunk that it hears back.
   */
  lemma SenderHearsItself(ops: seq<Op>, k: nat, id: u64, payload: seq<byte>)
    requires k < |ops| && OnlyCopies(ops, id, payload) && Fragmented(payload)
    requires Concerns(ops[k], id) && ops[k].inbound
    requires forall j :: 0 <= j < k && Concerns(ops[j], id) ==> !ops[j].inbound
    requires AllCame(ops[..k], id, payload)
    ensures Output(ops, k) == Some(LinkMsg(id, payload))
    ensures forall j :: j != k ==> !DeliveredAt(ops, j, id)
  {
    AllCameGrows(ops, k, k + 1, id, payload);
    CompletingIffAllCame(ops, k, id, payload);
    DeliveredExactlyAtFirstCompletion(ops, k, id);
    DeliveryIsPayload(ops, k, id, payload);
    forall j | j != k ensures !DeliveredAt(ops, j, id) {
      if DeliveredAt(ops, j, id) {
        DeliveredAtMostOnce(ops, j, k);
      }
    }
  }
}
