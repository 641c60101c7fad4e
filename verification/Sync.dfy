/** The sync task: when it starts an exchange, when it answers one, and which notes it relays. */
module SyncController {
  import opened Prelude
  import opened LinkTypes
  import opened OutgoingQueues
  import opened Policies
  import opened LruSets
  import EncNotes
  import EncStrings

  /** What the sync task asks the link to send. */
  datatype Sent = Negentropy(data: seq<byte>, level: u32) | Note(msgid: MsgId)

  const RECENT_CAPACITY: nat := 20

  datatype SyncState = SyncState(
    pauseSync: bool, linkReady: bool,
    lastSync: Option<nat>, lastNote: Option<nat>,  // milliseconds; None is longer ago than any interval
    recent: seq<MsgId>,
    sent: seq<Sent>,
    poisoned: bool)  // a handler has panicked while it held the lock

  const INIT := SyncState(false, false, None, None, [], [], false)

  /** What reconciling an incoming negentropy message gives: the next message if any, and the notes to send. */
  datatype Reconciled =
    | Failed(notes: seq<MsgId>)
    | Synchronized(notes: seq<MsgId>)
    | Continue(data: seq<byte>, notes: seq<MsgId>)

  /** A raw note may not be UTF-8; a compact note may not convert back to an event. */
  datatype NoteForm = Raw(utf8: bool) | Compact(note: EncNotes.EncNote)

  /** What is fixed while the task runs. */
  datatype Setting = Setting(policy: SyncPolicy, lib: EncNotes.Library)

  datatype Event =
    | LinkReady
    | LinkInfo(high: nat, normal: nat, now: nat, initiation: Option<seq<byte>>)  // None: composing it failed
    | HeardNegentropy(level: u32, now: nat, result: Reconciled)
    | HeardNote(msgid: MsgId, now: nat, form: NoteForm)
    | LocalNote(msgid: MsgId)                         // the database reports a new note, which is sent in compact form

  /** The note is taken over and its id remembered, unless handling it panics. */
  predicate Kept(e: Event) {
    e.HeardNote? && (e.form.Raw? ==> e.form.utf8)
  }

  /** Formatting a compact note that does not convert panics, with the lock held. */
  predicate Panics(lib: EncNotes.Library, e: Event) {
    e.HeardNote? && e.form.Compact? && EncNotes.ToEvent(e.form.note, lib).Failure?
  }

  ghost predicate Survives(lib: EncNotes.Library, events: seq<Event>) {
    forall i :: 0 <= i < |events| ==> !Panics(lib, events[i])
  }

  /** At least secs whole seconds have passed since then. */
  predicate IdleFor(last: Option<nat>, now: nat, secs: int) {
    last.None? || (last.value <= now && (now - last.value) / 1000 >= secs)
  }

  predicate ShouldPause(policy: SyncPolicy, qlen: nat) {
    qlen >= policy.pauseThresh
  }

  /** The decision to start an exchange, as reached by falling through every early return. */
  predicate Initiates(s: SyncState, policy: SyncPolicy, high: nat, normal: nat, now: nat) {
    var qlen := high + normal;
    && !(ShouldPause(policy, qlen) && !s.pauseSync)
    && s.linkReady
    && IdleFor(s.lastNote, now, policy.noteIdleSecs)
    && IdleFor(s.lastSync, now, policy.reconcileIdleSecs)
    && qlen <= policy.refillThresh
  }

  /** `u32` addition as in a release build. */
  function NextLevel(level: u32): u32 {
    if level == 0xFFFF_FFFF then 0 else level + 1
  }

  function Notes(ids: seq<MsgId>): (r: seq<Sent>)
    ensures |r| == |ids|
  {
    seq(|ids|, i requires 0 <= i < |ids| => Note(ids[i]))
  }

  function Replies(level: u32, result: Reconciled): seq<Sent> {
    match result
    case Failed(notes) => Notes(notes)
    case Synchronized(notes) => Notes(notes)
    case Continue(data, notes) => [Negentropy(data, NextLevel(level))] + Notes(notes)
  }

  /** Once the lock is poisoned, every handler panics at its first line. */
  function Next(s: SyncState, setting: Setting, e: Event): SyncState {
    if s.poisoned then s else Handled(s, setting, e)
  }

  function Handled(s: SyncState, setting: Setting, e: Event): SyncState {
    match e
    case LinkReady => s.(linkReady := true)
    case LinkInfo(high, normal, now, initiation) =>
      s.(pauseSync := ShouldPause(setting.policy, high + normal),
         sent := s.sent +
           if Initiates(s, setting.policy, high, normal, now) && initiation.Some?
           then [Negentropy(initiation.value, 0)] else [])
    case HeardNegentropy(level, now, result) =>
      s.(lastSync := Some(now), sent := s.sent + if s.pauseSync then [] else Replies(level, result))
    case HeardNote(msgid, now, _) =>
      s.(lastNote := Some(now), poisoned := Panics(setting.lib, e),
         recent := if Kept(e) && !Panics(setting.lib, e) then Inserted(s.recent, RECENT_CAPACITY, msgid) else s.recent)
    case LocalNote(msgid) =>
      s.(sent := s.sent + if msgid in s.recent then [] else [Note(msgid)])
  }

  function Run(setting: Setting, events: seq<Event>): SyncState {
    if events == [] then INIT
    else Next(Run(setting, events[..|events| - 1]), setting, events[|events| - 1])
  }

  /** What event number k made the sync task send. */
  function SentBy(setting: Setting, events: seq<Event>, k: nat): seq<Sent>
    requires k < |events|
  {
    var s := Run(setting, events[..k]);
    var s' := Next(s, setting, events[k]);
    if |s.sent| <= |s'.sent| then s'.sent[|s.sent|..] else []
  }

  lemma {:induction false} PoisonedIffPanicked(setting: Setting, events: seq<Event>)
    ensures Run(setting, events).poisoned <==> !Survives(setting.lib, events)
  {
    if events != [] {
      var prefix, e := events[..|events| - 1], events[|events| - 1];
      PoisonedIffPanicked(setting, prefix);
      assert events == prefix + [e];
      if !Survives(setting.lib, prefix) {
        var i :| 0 <= i < |prefix| && Panics(setting.lib, prefix[i]);
        assert Panics(setting.lib, events[i]);
      }
    }
  }

  /** The lock is poisoned exactly when a compact note has been heard that is not convertible, told from its bytes. */
  lemma PoisonedIffUnconvertible(setting: Setting, events: seq<Event>)
    ensures Run(setting, events).poisoned <==>
      exists i :: 0 <= i < |events| && events[i].HeardNote? && events[i].form.Compact?
        && !EncNotes.Convertible(events[i].form.note, setting.lib)
  {
    PoisonedIffPanicked(setting, events);
    forall i | 0 <= i < |events| && events[i].HeardNote? && events[i].form.Compact?
      ensures Panics(setting.lib, events[i]) <==> !EncNotes.Convertible(events[i].form.note, setting.lib)
    {
      EncNotes.ConvertsIff(events[i].form.note, setting.lib);
    }
  }

  /** After a panic nothing is sent any more. */
  lemma SilentAfterPanic(setting: Setting, events: seq<Event>, i: nat, k: nat)
    requires i < k < |events| && Panics(setting.lib, events[i])
    ensures SentBy(setting, events, k) == []
  {
    assert events[..k][i] == events[i];
    PoisonedIffPanicked(setting, events[..k]);
  }

  /** One note with an id of 31 bytes, say, silences the task, whatever comes before and after. */
  lemma ShortIdSilences(setting: Setting, before: seq<Event>, e: Event, after: seq<Event>, k: nat)
    requires e.HeardNote? && e.form.Compact? && |e.form.note.id| == 31
    requires |before| < k < |before + [e] + after|
    ensures SentBy(setting, before + [e] + after, k) == []
  {
    EncNotes.ConvertsIff(e.form.note, setting.lib);
    assert (before + [e] + after)[|before|] == e;
    SilentAfterPanic(setting, before + [e] + after, |before|, k);
  }

  /** Compact notes that nodes with the same libraries make of proper events never do that. */
  lemma ProperNotesNeverPoison(setting: Setting, events: seq<Event>)
    requires EncStrings.Inverse(setting.lib.brotli)
    requires forall i :: 0 <= i < |events| && events[i].HeardNote? && events[i].form.Compact? ==>
      exists evt: EncNotes.Event ::
        EncNotes.WellFormed(evt, setting.lib) && events[i].form.note == EncNotes.ToEncNote(evt, setting.lib)
    ensures !Run(setting, events).poisoned
  {
    PoisonedIffPanicked(setting, events);
    forall i | 0 <= i < |events| ensures !Panics(setting.lib, events[i]) {
      if events[i].HeardNote? && events[i].form.Compact? {
        var evt: EncNotes.Event :|
          EncNotes.WellFormed(evt, setting.lib) && events[i].form.note == EncNotes.ToEncNote(evt, setting.lib);
        EncNotes.EventRoundTrip(evt, setting.lib);
      }
    }
  }

  // ---- throttle ----

  /** The number of queued frames the last length report gave, if there was one. */
  function LastReport(events: seq<Event>): Option<nat> {
    if events == [] then None
    else
      var e := events[|events| - 1];
      if e.LinkInfo? then Some(e.high + e.normal) else LastReport(events[..|events| - 1])
  }

  predicate Congested(policy: SyncPolicy, events: seq<Event>) {
    LastReport(events).Some? && LastReport(events).value >= policy.pauseThresh
  }

  lemma {:induction false} PausedIffCongested(setting: Setting, events: seq<Event>)
    requires Survives(setting.lib, events)
    ensures Run(setting, events).pauseSync <==> Congested(setting.policy, events)
  {
    PoisonedIffPanicked(setting, events);
    if events != [] {
      assert Survives(setting.lib, events[..|events| - 1]);
      PausedIffCongested(setting, events[..|events| - 1]);
      PoisonedIffPanicked(setting, events[..|events| - 1]);
    }
  }

  /**
    While the last length report, this event included, is at or above the pause threshold, no
    exchange is started, even when the pause state just stayed as it was, and an incoming
    negentropy message is answered by nothing at all, its notes included. Below the threshold
    it is answered in full. A start leaves room below the refill threshold.
   */
  lemma NothingSentWhilePaused(setting: Setting, kbps: real, events: seq<Event>, k: nat)
    requires kbps > 0.0 && setting.policy == SyncPolicyFor(kbps) && k < |events|
    ensures Congested(setting.policy, events[..k + 1]) && !events[k].LocalNote? ==> SentBy(setting, events, k) == []
    ensures (events[k].HeardNegentropy? && Survives(setting.lib, events[..k])
        && !Congested(setting.policy, events[..k])) ==>
      SentBy(setting, events, k) == Replies(events[k].level, events[k].result)
    ensures events[k].LinkInfo? && SentBy(setting, events, k) != [] ==>
      events[k].high + events[k].normal <= setting.policy.refillThresh < setting.policy.pauseThresh
  {
    ThresholdsOrdered(kbps);
    assert events[..k + 1][..k] == events[..k];
    PoisonedIffPanicked(setting, events[..k]);
    if Survives(setting.lib, events[..k]) {
      PausedIffCongested(setting, events[..k]);
    }
    match events[k]
    case LinkReady =>
    case LinkInfo(_, _, _, _) =>
    case HeardNegentropy(_, _, _) =>
    case HeardNote(_, _, _) =>
    case LocalNote(_) =>
  }

  /**
    The answer of a node that is neither paused nor poisoned, told from what reconciling gave: the
    next message if there is one, at the level after the incoming one (after the top level, 0),
    and then a note for each id wanted, in order.
   */
  lemma AnsweredInFull(setting: Setting, events: seq<Event>, k: nat)
    requires k < |events| && events[k].HeardNegentropy?
    requires Survives(setting.lib, events[..k]) && !Congested(setting.policy, events[..k])
    ensures var sent, result := SentBy(setting, events, k), events[k].result;
      if result.Continue? then
        && |sent| == 1 + |result.notes|
        && sent[0] == Negentropy(result.data, if events[k].level == 0xFFFF_FFFF then 0 else events[k].level + 1)
        && forall i :: 0 <= i < |result.notes| ==> sent[1 + i] == Note(result.notes[i])
      else
        && |sent| == |result.notes|
        && forall i :: 0 <= i < |result.notes| ==> sent[i] == Note(result.notes[i])
  {
    PoisonedIffPanicked(setting, events[..k]);
    PausedIffCongested(setting, events[..k]);
    RepliesInOrder(events[k].level, events[k].result);
    var s := Run(setting, events[..k]);
    assert Next(s, setting, events[k]).sent == s.sent + Replies(events[k].level, events[k].result);
  }

  lemma RepliesInOrder(level: u32, result: Reconciled)
    ensures var sent := Replies(level, result);
      if result.Continue? then
        && |sent| == 1 + |result.notes|
        && sent[0] == Negentropy(result.data, if level == 0xFFFF_FFFF then 0 else level + 1)
        && forall i :: 0 <= i < |result.notes| ==> sent[1 + i] == Note(result.notes[i])
      else
        && |sent| == |result.notes|
        && forall i :: 0 <= i < |result.notes| ==> sent[i] == Note(result.notes[i])
  {
    var notes := Notes(result.notes);
    assert forall i :: 0 <= i < |notes| ==> notes[i] == Note(result.notes[i]);
    if result.Continue? {
      assert Replies(level, result)[1..] == notes;
    }
  }

  /** The ready signal and heard notes make the task send nothing, and a length report or local note one thing at most. */
  lemma OthersSendLittle(setting: Setting, events: seq<Event>, k: nat)
    requires k < |events| && !events[k].HeardNegentropy?
    ensures events[k].LinkReady? || events[k].HeardNote? ==> SentBy(setting, events, k) == []
    ensures |SentBy(setting, events, k)| <= 1
  {
  }

  function TimeOf(e: Event): Option<nat> {
    match e
    case LinkInfo(_, _, now, _) => Some(now)
    case HeardNegentropy(_, now, _) => Some(now)
    case HeardNote(_, now, _) => Some(now)
    case _ => None
  }

  /** The clock does not run backwards. */
  ghost predicate Monotone(events: seq<Event>) {
    forall i, j :: 0 <= i < j < |events| && TimeOf(events[i]).Some? && TimeOf(events[j]).Some? ==>
      TimeOf(events[i]).value <= TimeOf(events[j]).value
  }

  ghost predicate RemembersLast(s: SyncState, events: seq<Event>) {
    && (forall i :: 0 <= i < |events| && events[i].HeardNote? ==>
      s.lastNote.Some? && events[i].now <= s.lastNote.value)
    && (forall i :: 0 <= i < |events| && events[i].HeardNegentropy? ==>
      s.lastSync.Some? && events[i].now <= s.lastSync.value)
  }

  lemma {:induction false} RunRemembersLast(setting: Setting, events: seq<Event>)
    requires Monotone(events) && Survives(setting.lib, events)
    ensures RemembersLast(Run(setting, events), events)
  {
    if events != [] {
      var prefix, e := events[..|events| - 1], events[|events| - 1];
      assert Monotone(prefix) && Survives(setting.lib, prefix);
      RunRemembersLast(setting, prefix);
      PoisonedIffPanicked(setting, prefix);
      assert events == prefix + [e];
      RemembersOneMore(Run(setting, prefix), setting, prefix, e);
    }
  }

  lemma RemembersOneMore(s: SyncState, setting: Setting, prefix: seq<Event>, e: Event)
    requires !s.poisoned && RemembersLast(s, prefix) && Monotone(prefix + [e])
    ensures RemembersLast(Next(s, setting, e), prefix + [e])
  {
    var events := prefix + [e];
    if TimeOf(e).Some? {
      forall i | 0 <= i < |prefix| && TimeOf(prefix[i]).Some? ensures TimeOf(prefix[i]).value <= TimeOf(e).value {
        assert events[i] == prefix[i] && events[|prefix|] == e;
      }
    }
  }

  ghost predicate QuietSince(events: seq<Event>, k: nat, policy: SyncPolicy)
    requires k < |events| && events[k].LinkInfo?
  {
    && (exists i :: 0 <= i < k && events[i].LinkReady?)
    && (forall i :: 0 <= i < k && events[i].HeardNote? ==>
      (events[k].now - events[i].now) / 1000 >= policy.noteIdleSecs)
    && (forall i :: 0 <= i < k && events[i].HeardNegentropy? ==>
      (events[k].now - events[i].now) / 1000 >= policy.reconcileIdleSecs)
  }

  /**
    A length report starts an exchange exactly when no handler has panicked, the link has been
    ready, no note was heard for the note idle time and no negentropy message for the reconcile
    idle time, no more frames are queued than the refill threshold allows, and composing the
    start did not fail.
   */
  lemma StartsExactlyWhenQuiet(setting: Setting, kbps: real, events: seq<Event>, k: nat)
    requires kbps > 0.0 && setting.policy == SyncPolicyFor(kbps) && Monotone(events)
    requires k < |events| && events[k].LinkInfo?
    ensures SentBy(setting, events, k) ==
      if && Survives(setting.lib, events[..k]) && QuietSince(events, k, setting.policy)
         && events[k].high + events[k].normal <= setting.policy.refillThresh
         && events[k].initiation.Some?
      then [Negentropy(events[k].initiation.value, 0)] else []
  {
    ThresholdsOrdered(kbps);
    PoisonedIffPanicked(setting, events[..k]);
    if Survives(setting.lib, events[..k]) {
      ReadyIffSignalled(setting, events[..k]);
      IdleIffQuiet(setting, events, k);
    }
  }

  lemma {:induction false} ReadyIffSignalled(setting: Setting, events: seq<Event>)
    requires Survives(setting.lib, events)
    ensures Run(setting, events).linkReady <==> exists i :: 0 <= i < |events| && events[i].LinkReady?
  {
    if events != [] {
      var prefix := events[..|events| - 1];
      assert Survives(setting.lib, prefix);
      ReadyIffSignalled(setting, prefix);
      PoisonedIffPanicked(setting, prefix);
      if i :| 0 <= i < |prefix| && prefix[i].LinkReady? {
        assert events[i].LinkReady?;
      }
      if i :| 0 <= i < |events| && events[i].LinkReady? {
        assert i < |prefix| ==> prefix[i].LinkReady?;
      }
    }
  }

  /** The recorded times are times of events. */
  lemma {:induction false} RemembersTruly(setting: Setting, events: seq<Event>)
    ensures var s := Run(setting, events);
      && (s.lastNote.Some? ==>
        exists i :: 0 <= i < |events| && events[i].HeardNote? && events[i].now == s.lastNote.value)
      && (s.lastSync.Some? ==>
        exists i :: 0 <= i < |events| && events[i].HeardNegentropy? && events[i].now == s.lastSync.value)
  {
    if events != [] {
      var prefix, e := events[..|events| - 1], events[|events| - 1];
      RemembersTruly(setting, prefix);
      var s := Run(setting, events);
      if s.lastNote.Some? {
        if e.HeardNote? && !Run(setting, prefix).poisoned {
          assert events[|prefix|].HeardNote?;
        } else {
          var i :| 0 <= i < |prefix| && prefix[i].HeardNote? && prefix[i].now == s.lastNote.value;
          assert events[i].HeardNote?;
        }
      }
      if s.lastSync.Some? {
        if e.HeardNegentropy? && !Run(setting, prefix).poisoned {
          assert events[|prefix|].HeardNegentropy?;
        } else {
          var i :| 0 <= i < |prefix| && prefix[i].HeardNegentropy? && prefix[i].now == s.lastSync.value;
          assert events[i].HeardNegentropy?;
        }
      }
    }
  }

  lemma IdleIffQuiet(setting: Setting, events: seq<Event>, k: nat)
    requires Monotone(events) && k < |events| && events[k].LinkInfo? && Survives(setting.lib, events[..k])
    ensures IdleFor(Run(setting, events[..k]).lastNote, events[k].now, setting.policy.noteIdleSecs) <==>
      forall i :: 0 <= i < k && events[i].HeardNote? ==> (events[k].now - events[i].now) / 1000 >= setting.policy.noteIdleSecs
    ensures IdleFor(Run(setting, events[..k]).lastSync, events[k].now, setting.policy.reconcileIdleSecs) <==>
      forall i :: 0 <= i < k && events[i].HeardNegentropy? ==>
        (events[k].now - events[i].now) / 1000 >= setting.policy.reconcileIdleSecs
  {
    var prefix := events[..k];
    assert Monotone(prefix);
    RunRemembersLast(setting, prefix);
    RemembersTruly(setting, prefix);
    var s := Run(setting, prefix);
    if s.lastNote.Some? {
      var j :| 0 <= j < |prefix| && prefix[j].HeardNote? && prefix[j].now == s.lastNote.value;
      assert events[j].HeardNote? && TimeOf(events[j]) == Some(s.lastNote.value) && TimeOf(events[k]).Some?;
      forall i | 0 <= i < k && events[i].HeardNote?
        ensures (events[k].now - events[i].now) / 1000 >= (events[k].now - s.lastNote.value) / 1000
      {
        assert prefix[i].HeardNote?;
        LongerAgo(events[k].now, events[i].now, s.lastNote.value);
      }
    } else {
      assert forall i :: 0 <= i < k ==> prefix[i] == events[i];
    }
    if s.lastSync.Some? {
      var j :| 0 <= j < |prefix| && prefix[j].HeardNegentropy? && prefix[j].now == s.lastSync.value;
      assert events[j].HeardNegentropy? && TimeOf(events[j]) == Some(s.lastSync.value) && TimeOf(events[k]).Some?;
      forall i | 0 <= i < k && events[i].HeardNegentropy?
        ensures (events[k].now - events[i].now) / 1000 >= (events[k].now - s.lastSync.value) / 1000
      {
        assert prefix[i].HeardNegentropy?;
        LongerAgo(events[k].now, events[i].now, s.lastSync.value);
      }
    } else {
      assert forall i :: 0 <= i < k ==> prefix[i] == events[i];
    }
  }

  lemma LongerAgo(now: nat, early: nat, late: nat)
    requires early <= late <= now
    ensures (now - early) / 1000 >= (now - late) / 1000
  {
  }

  // ---- levels in the outgoing queue ----

  function NegentropyOptions(level: u32): OutOptions {
    OutOptions(High, Classy("negentropy", level))
  }

  /** A start carries level 0 and displaces nothing queued. */
  lemma StartDisplacesNothing<F(!new)>(q: Queues<F>, max: nat, msgid: MsgId, frame: F)
    ensures q.high <= AfterEnqueue(q, max, msgid, frame, NegentropyOptions(0)).0.high
    ensures q.normal == AfterEnqueue(q, max, msgid, frame, NegentropyOptions(0)).0.normal
  {
    if q.high != [] {
      OnlyLowerIsDisplaced(q.high, max, Entry(msgid, NegentropyOptions(0).policy, frame), q.high[0]);
    }
  }

  /** A reply is above level 0, so above every start, except to the one level that wraps round. */
  lemma RepliesAreAboveStarts(level: u32)
    ensures NextLevel(level) > 0 <==> level != 0xFFFF_FFFF
    ensures level != 0xFFFF_FFFF ==> NextLevel(level) == level + 1
  {
  }

  /** In a well-formed high queue all negentropy frames have one level. */
  lemma OneNegentropyLevel<F(!new)>(queue: seq<Entry<F>>, max: nat, a: Entry<F>, b: Entry<F>, x: u32, y: u32)
    requires QueueInv(queue, max) && a in queue && b in queue
    requires a.policy == NegentropyOptions(x).policy && b.policy == NegentropyOptions(y).policy
    ensures x == y
  {
    var i :| 0 <= i < |queue| && queue[i] == a;
    var j :| 0 <= j < |queue| && queue[j] == b;
    OneLevelEach(queue, max, "negentropy", x, y);
  }

  // ---- relaying ----

  /** The ids of the notes taken over so far, in order. */
  function HeardIds(events: seq<Event>): seq<MsgId> {
    if events == [] then []
    else
      var e := events[|events| - 1];
      HeardIds(events[..|events| - 1]) + if Kept(e) then [e.msgid] else []
  }

  lemma {:induction false} RecentIsWindow(setting: Setting, events: seq<Event>)
    requires Survives(setting.lib, events)
    ensures Run(setting, events).recent == DequeAfter(HeardIds(events), RECENT_CAPACITY)
  {
    if events != [] {
      var prefix, e := events[..|events| - 1], events[|events| - 1];
      assert Survives(setting.lib, prefix);
      RecentIsWindow(setting, prefix);
      PoisonedIffPanicked(setting, prefix);
      if Kept(e) {
        OneMoreEffective(HeardIds(prefix), e.msgid, RECENT_CAPACITY);
      } else {
        assert HeardIds(prefix) + [] == HeardIds(prefix);
      }
    }
  }

  /**
    A local note is relayed exactly when its id is not among the last twenty that were heard while
    absent from the recent set.
   */
  lemma RelaysIff(setting: Setting, events: seq<Event>, k: nat)
    requires k < |events| && events[k].LocalNote?
    ensures var before, id := events[..k], events[k].msgid;
      SentBy(setting, events, k) ==
        if Survives(setting.lib, before) && id !in LastOf(Effective(HeardIds(before), RECENT_CAPACITY), RECENT_CAPACITY)
        then [Note(id)] else []
  {
    PoisonedIffPanicked(setting, events[..k]);
    if Survives(setting.lib, events[..k]) {
      RecentIsWindow(setting, events[..k]);
      DequeIsWindow(HeardIds(events[..k]), RECENT_CAPACITY);
    }
  }

  /** Event i is a hearing of this id that found it absent from the recent set. */
  ghost predicate NewlyHeard(events: seq<Event>, i: nat, id: MsgId) {
    && i < |events| && Kept(events[i]) && events[i].msgid == id
    && id !in DequeAfter(HeardIds(events[..i]), RECENT_CAPACITY)
  }

  /** How many ids were heard while absent from the recent set after event i and before event k. */
  function NewSince(events: seq<Event>, i: nat, k: nat): int
    requires i < k <= |events|
  {
    |Effective(HeardIds(events[..k]), RECENT_CAPACITY)| - |Effective(HeardIds(events[..i + 1]), RECENT_CAPACITY)|
  }

  /** A raw UTF-8 note just heard, or a compact one that converts, is not relayed, whatever came before. */
  lemma JustHeardIsHeldBack(setting: Setting, events: seq<Event>, id: MsgId, now: nat, form: NoteForm)
    requires match form case Raw(utf8) => utf8 case Compact(note) => EncNotes.Convertible(note, setting.lib)
    ensures SentBy(setting, events + [HeardNote(id, now, form)] + [LocalNote(id)], |events| + 1) == []
  {
    var heard := events + [HeardNote(id, now, form)];
    var all := heard + [LocalNote(id)];
    assert all[..|events| + 1] == heard && heard[..|events|] == events;
    if form.Compact? {
      EncNotes.ConvertsIff(form.note, setting.lib);
    }
  }

  /** A raw note that is not UTF-8 leaves no trace in what is relayed. */
  lemma BadRawIsForgotten(setting: Setting, events: seq<Event>, id: MsgId, now: nat, local: MsgId)
    ensures SentBy(setting, events + [HeardNote(id, now, Raw(false))] + [LocalNote(local)], |events| + 1)
      == SentBy(setting, events + [LocalNote(local)], |events|)
  {
    var heard := events + [HeardNote(id, now, Raw(false))];
    assert (heard + [LocalNote(local)])[..|events| + 1] == heard && heard[..|events|] == events;
    assert (events + [LocalNote(local)])[..|events|] == events;
  }

  /**
    No echo: once a note has been heard from the mesh, raw and UTF-8 or compact and convertible, it has a last hearing i that found it absent
    from the recent set, and it is held back exactly while fewer than twenty others have been
    heard that way since i. Hearing it again in the meantime does not prolong this.
   */
  lemma NoEcho(setting: Setting, events: seq<Event>, j: nat, k: nat) returns (i: nat)
    requires j < k < |events| && events[j].HeardNote? && events[k] == LocalNote(events[j].msgid)
    requires match events[j].form
      case Raw(utf8) => utf8
      case Compact(note) => EncNotes.Convertible(note, setting.lib)
    ensures i < k && NewlyHeard(events, i, events[j].msgid)
    ensures forall l :: i < l < k ==> !NewlyHeard(events, l, events[j].msgid)
    ensures SentBy(setting, events, k) ==
      if Survives(setting.lib, events[..k]) && NewSince(events, i, k) >= RECENT_CAPACITY then [Note(events[j].msgid)] else []
  {
    var before, id := events[..k], events[j].msgid;
    var values := HeardIds(before);
    HeardInOrder(before, j);
    var q := PresentIff(values, id, RECENT_CAPACITY);
    i := LastNewHearing(before, id, q);
    SamePrefixes(events, i, k, id);
    RelaysIff(setting, events, k);
    DequeIsWindow(values, RECENT_CAPACITY);
  }

  lemma SamePrefixes(events: seq<Event>, i: nat, k: nat, id: MsgId)
    requires i < k <= |events|
    ensures forall l :: 0 <= l < k ==> (NewlyHeard(events[..k], l, id) <==> NewlyHeard(events, l, id))
    ensures NewSince(events[..k], i, k) == NewSince(events, i, k)
  {
    assert events[..k][..k] == events[..k] && events[..k][..i + 1] == events[..i + 1];
    forall l | 0 <= l < k ensures NewlyHeard(events[..k], l, id) <==> NewlyHeard(events, l, id) {
      assert events[..k][..l] == events[..l];
    }
  }

  lemma LastNewHearing(events: seq<Event>, id: MsgId, q: nat) returns (i: nat)
    requires LastEntry(HeardIds(events), q, id, RECENT_CAPACITY)
    ensures i < |events| && NewlyHeard(events, i, id)
    ensures forall l :: i < l < |events| ==> !NewlyHeard(events, l, id)
    ensures NewSince(events, i, |events|) == EffectiveAfter(HeardIds(events), q, RECENT_CAPACITY)
  {
    var values := HeardIds(events);
    i := HeardAt(events, q);
    assert events[..i + 1][..i] == events[..i] && events[..|events|] == events;
    assert HeardIds(events[..i + 1]) == values[..q + 1];
    forall l | i < l < |events| ensures !NewlyHeard(events, l, id) {
      if Kept(events[l]) && events[l].msgid == id {
        HeardInOrder(events, l);
        HeardIdsGrow(events[..l], i + 1);
        assert events[..l][..i + 1] == events[..i + 1];
      }
    }
  }

  lemma {:induction false} HeardIdsGrow(events: seq<Event>, j: nat)
    requires j <= |events|
    ensures HeardIds(events[..j]) <= HeardIds(events)
  {
    if j < |events| {
      HeardIdsGrow(events[..|events| - 1], j);
      assert events[..|events| - 1][..j] == events[..j];
    } else {
      assert events[..j] == events;
    }
  }

  /** A kept note's id stands in the ids heard after those heard before it. */
  lemma HeardInOrder(events: seq<Event>, j: nat)
    requires j < |events| && Kept(events[j])
    ensures var ids, n := HeardIds(events), |HeardIds(events[..j])|;
      n < |ids| && ids[..n] == HeardIds(events[..j]) && ids[n] == events[j].msgid
  {
    assert events[..j + 1][..j] == events[..j];
    HeardIdsGrow(events, j);
    HeardIdsGrow(events, j + 1);
  }

  lemma {:induction false} HeardAt(events: seq<Event>, q: nat) returns (i: nat)
    requires q < |HeardIds(events)|
    ensures i < |events| && Kept(events[i]) && events[i].msgid == HeardIds(events)[q]
    ensures HeardIds(events[..i]) == HeardIds(events)[..q]
  {
    var prefix := events[..|events| - 1];
    if q < |HeardIds(prefix)| {
      i := HeardAt(prefix, q);
      assert prefix[..i] == events[..i];
    } else {
      i := |prefix|;
    }
  }

  // ---- hearing a note again does not help ----

  function Id(i: nat): MsgId
    requires i <= RECENT_CAPACITY
  {
    MsgId(i, None)
  }

  function Hearing(i: nat): Event
    requires i <= RECENT_CAPACITY
  {
    HeardNote(Id(i), 0, Raw(true))
  }

  function Ids(n: nat): (ids: seq<MsgId>)
    requires n <= RECENT_CAPACITY
    ensures |ids| == n
    ensures forall i :: 0 <= i < n ==> ids[i] == Id(i)
  {
    if n == 0 then [] else Ids(n - 1) + [Id(n - 1)]
  }

  function Hearings(n: nat): (events: seq<Event>)
    requires n <= RECENT_CAPACITY
    ensures |events| == n
    ensures forall i :: 0 <= i < n ==> events[i] == Hearing(i)
  {
    if n == 0 then [] else Hearings(n - 1) + [Hearing(n - 1)]
  }

  lemma {:induction false} HearingsGiveIds(n: nat)
    requires n <= RECENT_CAPACITY
    ensures HeardIds(Hearings(n)) == Ids(n)
  {
    if n == 0 {
      assert Hearings(n) == [] && Ids(n) == [];
    } else {
      HearingsGiveIds(n - 1);
      HeardOneMore(Hearings(n - 1), n - 1);
      assert Hearings(n) == Hearings(n - 1) + [Hearing(n - 1)];
      assert Ids(n) == Ids(n - 1) + [Id(n - 1)];
    }
  }

  lemma HeardOneMore(events: seq<Event>, i: nat)
    requires i <= RECENT_CAPACITY
    ensures HeardIds(events + [Hearing(i)]) == HeardIds(events) + [Id(i)]
  {
    assert (events + [Hearing(i)])[..|events|] == events;
  }

  lemma FullWindowMoves()
    ensures DequeAfter(Ids(20) + [Id(0)] + [Id(20)], RECENT_CAPACITY) == Ids(20)[1..] + [Id(20)]
  {
    DistinctFill(Ids(20), RECENT_CAPACITY);
    OneMoreEffective(Ids(20), Id(0), RECENT_CAPACITY);
    assert Ids(20)[0] == Id(0);
    OneMoreEffective(Ids(20) + [Id(0)], Id(20), RECENT_CAPACITY);
  }

  /**
    A note heard first, then nineteen others, then that note again, then one other: the note is
    echoed, though only one other note came since it was last heard.
   */
  lemma EchoAfterHearingAgain(setting: Setting)
    ensures var events := Hearings(20) + [Hearing(0)] + [Hearing(20)] + [LocalNote(Id(0))];
      SentBy(setting, events, 22) == [Note(Id(0))]
  {
    var more := Hearings(20) + [Hearing(0)] + [Hearing(20)];
    var events := more + [LocalNote(Id(0))];
    assert events[..22] == more;
    HearingsGiveIds(20);
    HeardOneMore(Hearings(20), 0);
    HeardOneMore(Hearings(20) + [Hearing(0)], 20);
    FullWindowMoves();
    RelaysIff(setting, events, 22);
    DequeIsWindow(HeardIds(more), RECENT_CAPACITY);
  }

  // ---- the task's object ----

  class Sync {
    const setting: Setting
    var pauseSync: bool
    var isLinkReady: bool
    var lastSyncRecv: Option<nat>
    var lastNoteRecv: Option<nat>
    const recentlyInserted: LruSet<MsgId>
    var linkTx: seq<Sent>
    var poisoned: bool

    constructor (kbps: real, lib: EncNotes.Library)
      requires kbps > 0.0
      ensures Valid() && setting == Setting(SyncPolicyFor(kbps), lib) && State() == INIT
    {
      setting := Setting(SyncPolicyFor(kbps), lib);
      pauseSync, isLinkReady := false, false;
      lastSyncRecv, lastNoteRecv := None, None;
      recentlyInserted := new LruSet<MsgId>(RECENT_CAPACITY);
      linkTx, poisoned := [], false;
    }

    ghost predicate Valid()
      reads this, recentlyInserted
    {
      recentlyInserted.Valid() && recentlyInserted.capacity == RECENT_CAPACITY
    }

    ghost function State(): SyncState
      reads this, recentlyInserted
    {
      SyncState(pauseSync, isLinkReady, lastSyncRecv, lastNoteRecv, recentlyInserted.deque, linkTx, poisoned)
    }

    method HandleReady()
      requires Valid()
      modifies this
      ensures Valid() && State() == Next(old(State()), setting, LinkReady)
    {
      if poisoned {
        return;
      }
      isLinkReady := true;
    }

    method HandleInfo(high: nat, normal: nat, now: nat, initiation: Option<seq<byte>>)
      requires Valid()
      modifies this
      ensures Valid() && State() == Next(old(State()), setting, LinkInfo(high, normal, now, initiation))
    {
      if poisoned {
        return;
      }
      var qlen := high + normal;
      var shouldPause := qlen >= setting.policy.pauseThresh;
      assert linkTx + [] == linkTx;
      if shouldPause != pauseSync {
        pauseSync := shouldPause;
        if shouldPause {
          return;
        }
      }
      if !isLinkReady {
        return;
      }
      if !IdleFor(lastNoteRecv, now, setting.policy.noteIdleSecs) {
        return;
      }
      if !IdleFor(lastSyncRecv, now, setting.policy.reconcileIdleSecs) {
        return;
      }
      if qlen > setting.policy.refillThresh {
        return;
      }
      match initiation {
        case None =>
        case Some(data) => linkTx := linkTx + [Negentropy(data, 0)];
      }
    }

    method HandleNegentropy(level: u32, now: nat, result: Reconciled)
      requires Valid()
      modifies this
      ensures Valid() && State() == Next(old(State()), setting, HeardNegentropy(level, now, result))
    {
      if poisoned {
        return;
      }
      ghost var before := linkTx;
      lastSyncRecv := Some(now);
      assert before + [] == before;
      if pauseSync {
        return;
      }
      match result {
        case Failed(_) =>
        case Synchronized(_) =>
        case Continue(data, notes) =>
          linkTx := linkTx + [Negentropy(data, NextLevel(level))];
          assert linkTx + Notes(notes) == before + ([Negentropy(data, NextLevel(level))] + Notes(notes));
      }
      SendNotes(result.notes);
    }

    method SendNotes(notes: seq<MsgId>)
      modifies this`linkTx
      ensures linkTx == old(linkTx) + Notes(notes)
    {
      ghost var before := linkTx;
      for i := 0 to |notes|
        invariant linkTx == before + Notes(notes)[..i]
      {
        linkTx := linkTx + [Note(notes[i])];
      }
    }

    method HandleNote(msgid: MsgId, now: nat, form: NoteForm)
      requires Valid()
      modifies this, recentlyInserted
      ensures Valid() && State() == Next(old(State()), setting, HeardNote(msgid, now, form))
    {
      if poisoned {
        return;
      }
      lastNoteRecv := Some(now);
      match form {
        case Raw(utf8) =>
          if utf8 {
            recentlyInserted.Insert(msgid);
          }
        case Compact(note) =>
          match EncNotes.ToEvent(note, setting.lib) {
            case Failure(_) => poisoned := true;
            case Success(_) => recentlyInserted.Insert(msgid);
          }
      }
    }

    method RelayNote(msgid: MsgId)
      requires Valid()
      modifies this
      ensures Valid() && State() == Next(old(State()), setting, LocalNote(msgid))
    {
      if poisoned {
        return;
      }
      assert linkTx + [] == linkTx;
      if !recentlyInserted.Contains(msgid) {
        linkTx := linkTx + [Note(msgid)];
      }
    }
  }
}
