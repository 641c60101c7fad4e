/** How often one cache asks for the missing fragments of a message, over its whole life. */
module RetryBudget {
  import opened Prelude
  import opened Spacing
  import opened FragCache
  import opened FragHistory

  /** This call asks other nodes for fragments of this message. */
  predicate AsksFor(c: Cache, op: Op, id: u64) {
    op.Overdue? && id in c && Due(c[id], op.now)
  }

  /** The clock readings at which these calls asked for this message, in order. */
  function AskLog(ops: seq<Op>, id: u64): seq<nat> {
    if ops == [] then []
    else
      var prefix, op := ops[..|ops| - 1], ops[|ops| - 1];
      AskLog(prefix, id) + if AsksFor(Run(prefix), op, id) then [op.now] else []
  }

  /** The clock reading at the first fragment of this message. */
  function FirstSeen(ops: seq<Op>, id: u64): Option<nat> {
    if ops == [] then None
    else
      var before := FirstSeen(ops[..|ops| - 1], id);
      var op := ops[|ops| - 1];
      if before.None? && Concerns(op, id) then Some(op.now) else before
  }

  /** The entry's own record of its requests: when it was first seen and when it last asked. */
  ghost predicate Recorded(p: PartialMsg, log: seq<nat>, firstSeen: nat) {
    && p.created == firstSeen
    && p.lasttry == (if log == [] then firstSeen else log[|log| - 1])
    && Spaced(log, OVERDUE_SECS)
    && Within(log, firstSeen + OVERDUE_SECS, firstSeen + MAX_AGE_SECS)
  }

  ghost predicate LogIsRecorded(c: Cache, id: u64, log: seq<nat>, firstSeen: Option<nat>) {
    if id in c then firstSeen.Some? && Recorded(c[id], log, firstSeen.value)
    else firstSeen.None? && log == []
  }

  lemma {:induction false} RunRecordsAsks(ops: seq<Op>, id: u64)
    ensures LogIsRecorded(Run(ops), id, AskLog(ops, id), FirstSeen(ops, id))
  {
    if ops != [] {
      var prefix, op := ops[..|ops| - 1], ops[|ops| - 1];
      RunRecordsAsks(prefix, id);
      CallIsRecorded(Run(prefix), op, id, AskLog(prefix, id), FirstSeen(prefix, id));
    }
  }

  lemma CallIsRecorded(c: Cache, op: Op, id: u64, log: seq<nat>, firstSeen: Option<nat>)
    requires ValidCache(c) && LogIsRecorded(c, id, log, firstSeen)
    ensures LogIsRecorded(After(c, op), id,
      log + if AsksFor(c, op, id) then [op.now] else [],
      if firstSeen.None? && Concerns(op, id) then Some(op.now) else firstSeen)
  {
    if AsksFor(c, op, id) {
      AskIsRecorded(c[id], log, firstSeen.value, op.now);
    } else {
      assert log + [] == log;
      NoAskKeepsRecord(c, op, id);
    }
  }

  lemma AskIsRecorded(p: PartialMsg, log: seq<nat>, firstSeen: nat, now: nat)
    requires Recorded(p, log, firstSeen) && Due(p, now)
    ensures Recorded(Asked(p, now), log + [now], firstSeen)
  {
  }

  lemma NoAskKeepsRecord(c: Cache, op: Op, id: u64)
    requires ValidCache(c) && !AsksFor(c, op, id)
    ensures id in After(c, op) <==> id in c || Concerns(op, id)
    ensures id in c ==> After(c, op)[id].created == c[id].created && After(c, op)[id].lasttry == c[id].lasttry
    ensures id !in c && Concerns(op, id) ==> After(c, op)[id].created == After(c, op)[id].lasttry == op.now
  {
  }

  /** Requests go out 60 to 300 seconds after first sight and at least 60 seconds apart, whatever the clock does. */
  lemma AskedInWindow(ops: seq<Op>, id: u64)
    ensures AskLog(ops, id) != [] ==>
      && FirstSeen(ops, id).Some?
      && Within(AskLog(ops, id), FirstSeen(ops, id).value + OVERDUE_SECS, FirstSeen(ops, id).value + MAX_AGE_SECS)
    ensures Spaced(AskLog(ops, id), OVERDUE_SECS)
  {
    RunRecordsAsks(ops, id);
  }

  /**
    When a message is asked for, told from the calls alone: 60 to 300 seconds after its first
    fragment, 60 seconds or more after it was last asked for, and while some slot of it has
    nothing written to it.
   */
  lemma AskedExactlyWhen(ops: seq<Op>, now: nat, id: u64)
    ensures var log, first := AskLog(ops, id), FirstSeen(ops, id);
      AskLog(ops + [Overdue(now)], id) == log +
        if && first.Some? && first.value + 60 <= now < first.value + 300
           && (log != [] ==> log[|log| - 1] + 60 <= now)
           && !AllWritten(ops, id)
        then [now] else []
  {
    var c, all := Run(ops), ops + [Overdue(now)];
    assert all[..|all| - 1] == ops;
    RunRecordsAsks(ops, id);
    RunMirrors(ops, id);
    if id in c {
      WholeIffAllWritten(c[id], ops, id);
    } else {
      assert AskLog(ops, id) + [] == AskLog(ops, id);
    }
  }

  /** The budget: at most four requests per message, for every sequence of calls and clock readings. */
  lemma AtMostFourRequests(ops: seq<Op>, id: u64)
    ensures |AskLog(ops, id)| <= 4
  {
    AskedInWindow(ops, id);
    if AskLog(ops, id) != [] {
      var t := FirstSeen(ops, id).value;
      SpacedFit(AskLog(ops, id), OVERDUE_SECS, t + OVERDUE_SECS, MAX_AGE_SECS - OVERDUE_SECS - 1);
    }
  }

  const LINK_SEND_NEED_SECS: nat := 180

  /** The clock readings at which the cache was asked for overdue messages. */
  function Ticks(ops: seq<Op>): seq<nat> {
    if ops == [] then []
    else
      var op := ops[|ops| - 1];
      Ticks(ops[..|ops| - 1]) + if op.Overdue? then [op.now] else []
  }

  lemma {:induction false} AsksAreTicks(ops: seq<Op>, id: u64, gap: nat)
    requires Spaced(Ticks(ops), gap)
    ensures Spaced(AskLog(ops, id), gap)
    ensures forall t :: t in AskLog(ops, id) ==> t in Ticks(ops)
  {
    if ops != [] {
      var prefix, op := ops[..|ops| - 1], ops[|ops| - 1];
      var ticks, log := Ticks(prefix), AskLog(prefix, id);
      assert ticks == Ticks(ops)[..|ticks|];
      AsksAreTicks(prefix, id, gap);
      if AsksFor(Run(prefix), op, id) {
        forall i | 0 <= i < |log| ensures log[i] + gap <= op.now {
          assert log[i] in ticks;
          var j :| 0 <= j < |ticks| && ticks[j] == log[i];
          assert Ticks(ops)[j] + gap <= Ticks(ops)[|ticks|];
        }
      }
    }
  }

  /** On the timer the link uses, a steady clock allows at most two. */
  lemma AtMostTwoRequestsOnTimer(ops: seq<Op>, id: u64)
    requires Spaced(Ticks(ops), LINK_SEND_NEED_SECS)
    ensures |AskLog(ops, id)| <= 2
  {
    AskedInWindow(ops, id);
    AsksAreTicks(ops, id, LINK_SEND_NEED_SECS);
    if AskLog(ops, id) != [] {
      var t := FirstSeen(ops, id).value;
      SpacedFit(AskLog(ops, id), LINK_SEND_NEED_SECS, t + OVERDUE_SECS, MAX_AGE_SECS - OVERDUE_SECS - 1);
    }
  }

  // ---- all messages together ----

  function DueIds(c: Cache, op: Op): set<u64> {
    set id | id in c && AsksFor(c, op, id)
  }

  /** All requests sent for messages among ids, over these calls. */
  function TotalRequests(ops: seq<Op>, ids: set<u64>): nat {
    if ops == [] then 0
    else
      var prefix, op := ops[..|ops| - 1], ops[|ops| - 1];
      TotalRequests(prefix, ids) + |DueIds(Run(prefix), op) * ids|
  }

  /** A request list names each due message once. */
  lemma RequestListLength(reqs: seq<LinkMissing>, c: Cache, now: nat)
    requires ValidCache(c) && IsRequestFor(reqs, c, now)
    ensures |reqs| == |DueIds(c, Overdue(now))|
  {
    var ids := set i | 0 <= i < |reqs| :: reqs[i].msgid;
    forall id | id in DueIds(c, Overdue(now)) ensures id in ids {
      assert RequestedIn(reqs, id);
    }
    assert ids == DueIds(c, Overdue(now));
    AscendingSize(reqs);
  }

  lemma {:induction false} AscendingSize(reqs: seq<LinkMissing>)
    requires forall i, j :: 0 <= i < j < |reqs| ==> reqs[i].msgid < reqs[j].msgid
    ensures |set i | 0 <= i < |reqs| :: reqs[i].msgid| == |reqs|
  {
    var ids := set i | 0 <= i < |reqs| :: reqs[i].msgid;
    if reqs != [] {
      var n := |reqs| - 1;
      var fewer := reqs[..n];
      AscendingSize(fewer);
      var before := set i | 0 <= i < |fewer| :: fewer[i].msgid;
      forall id | id in ids ensures id in before + {reqs[n].msgid} {
        var i :| 0 <= i < |reqs| && reqs[i].msgid == id;
        if i < n { assert fewer[i].msgid == id; }
      }
      forall id | id in before ensures id in ids {
        var i :| 0 <= i < |fewer| && fewer[i].msgid == id;
        assert reqs[i].msgid == id;
      }
      assert ids == before + {reqs[n].msgid};
    }
  }

  lemma {:induction false} TotalSplits(ops: seq<Op>, ids: set<u64>, id: u64)
    requires id in ids
    ensures TotalRequests(ops, ids) == TotalRequests(ops, ids - {id}) + |AskLog(ops, id)|
  {
    if ops != [] {
      var prefix, op := ops[..|ops| - 1], ops[|ops| - 1];
      TotalSplits(prefix, ids, id);
      DueSplits(DueIds(Run(prefix), op), ids, id);
      assert AsksFor(Run(prefix), op, id) <==> id in DueIds(Run(prefix), op);
    }
  }

  lemma DueSplits(due: set<u64>, ids: set<u64>, id: u64)
    requires id in ids
    ensures |due * ids| == |due * (ids - {id})| + if id in due then 1 else 0
  {
    if id in due {
      assert due * ids == due * (ids - {id}) + {id};
    } else {
      assert due * ids == due * (ids - {id});
    }
  }

  lemma {:induction false} TotalAtMostFourEach(ops: seq<Op>, ids: set<u64>)
    ensures TotalRequests(ops, ids) <= 4 * |ids|
  {
    if ids == {} {
      NoneRequested(ops);
    } else {
      var id :| id in ids;
      TotalAtMostFourEach(ops, ids - {id});
      TotalSplits(ops, ids, id);
      AtMostFourRequests(ops, id);
    }
  }

  lemma NoneRequested(ops: seq<Op>)
    ensures TotalRequests(ops, {}) == 0
  {
  }

  /** All requests sent over these calls, for whichever messages. */
  function RequestsSent(ops: seq<Op>): nat {
    if ops == [] then 0
    else
      var prefix, op := ops[..|ops| - 1], ops[|ops| - 1];
      RequestsSent(prefix) + |DueIds(Run(prefix), op)|
  }

  lemma {:induction false} AllRequestsCounted(ops: seq<Op>, ids: set<u64>)
    requires Run(ops).Keys <= ids
    ensures RequestsSent(ops) == TotalRequests(ops, ids)
  {
    if ops != [] {
      var prefix, op := ops[..|ops| - 1], ops[|ops| - 1];
      assert Run(prefix).Keys <= Run(ops).Keys;
      AllRequestsCounted(prefix, ids);
      assert DueIds(Run(prefix), op) * ids == DueIds(Run(prefix), op);
    }
  }

  /** The whole budget: never more than four requests for each distinct message seen. */
  lemma RequestsSentBounded(ops: seq<Op>)
    ensures RequestsSent(ops) <= 4 * |Run(ops).Keys|
  {
    AllRequestsCounted(ops, Run(ops).Keys);
    TotalAtMostFourEach(ops, Run(ops).Keys);
  }

  // ---- four requests do happen ----

  function FourRequests(): seq<Op> {
    [Added(LinkFrag(7, 2, 0, 0, [1]), true, 0)] + [Overdue(60)] + [Overdue(120)] + [Overdue(180)] + [Overdue(240)]
  }

  lemma FourRequestsHappen()
    ensures AskLog(FourRequests(), 7) == [60, 120, 180, 240]
  {
    var first := Added(LinkFrag(7, 2, 0, 0, [1]), true, 0);
    FirstFragment(first);
    AskOnce([first], 60);
    AskOnce([first] + [Overdue(60)], 120);
    AskOnce([first] + [Overdue(60)] + [Overdue(120)], 180);
    AskOnce([first] + [Overdue(60)] + [Overdue(120)] + [Overdue(180)], 240);
  }

  ghost predicate HalfThere(c: Cache, lasttry: nat) {
    && 7 in c && |c[7].frags| == 2 && c[7].frags[1].data == []
    && c[7].created == 0 && c[7].lasttry == lasttry
  }

  lemma FirstFragment(first: Op)
    requires first == Added(LinkFrag(7, 2, 0, 0, [1]), true, 0)
    ensures HalfThere(Run([first]), 0) && AskLog([first], 7) == []
  {
    assert [first][..0] == [];
  }

  lemma AskOnce(ops: seq<Op>, t: nat)
    requires 60 <= t < 300 && HalfThere(Run(ops), t - 60)
    ensures HalfThere(Run(ops + [Overdue(t)]), t)
    ensures AskLog(ops + [Overdue(t)], 7) == AskLog(ops, 7) + [t]
  {
    assert (ops + [Overdue(t)])[..|ops|] == ops;
    assert Due(Run(ops)[7], t);
  }
}
