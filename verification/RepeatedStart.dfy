/** Starts of an exchange that repeat themselves, across the sync task and the fragment cache. */
module RepeatedStarts {
  import opened Prelude
  import opened SyncController
  import FragHistory

  /** What a negentropy message is sent under: a hash of its data, which its level does not enter. */
  function MessageId(hash: seq<byte> -> u64, sent: Sent): u64 {
    match sent
    case Negentropy(data, _) => hash(data)
    case Note(msgid) => msgid.base
  }

  /**
    Two starts of an exchange over the same data go out under one id. So a fragment cache that has
    handed up the first never hands up the second: a start that goes out in fragments is not
    heard again by a client that heard it once, as long as the data stays as it is.
   */
  lemma RepeatedStartIsLost(
      setting: Setting, events: seq<Event>, k: nat, l: nat, data: seq<byte>,
      hash: seq<byte> -> u64, ops: seq<FragHistory.Op>, i: nat, j: nat)
    requires k < l < |events| && i < j < |ops|
    requires SentBy(setting, events, k) == SentBy(setting, events, l) == [Negentropy(data, 0)]
    requires FragHistory.Output(ops, i).Some?
    requires FragHistory.Output(ops, i).value.msgid == MessageId(hash, SentBy(setting, events, k)[0])
    ensures FragHistory.Output(ops, j).Some? ==>
      FragHistory.Output(ops, j).value.msgid != MessageId(hash, SentBy(setting, events, l)[0])
  {
    if FragHistory.Output(ops, j).Some?
      && FragHistory.Output(ops, j).value.msgid == FragHistory.Output(ops, i).value.msgid
    {
      FragHistory.DeliveredAtMostOnce(ops, i, j);
    }
  }
}
