/** SDS messages and their three classes. */
module Messages {
  import opened Basics

  type MessageId = string
  type ChannelId = string
  type ParticipantId = string

  datatype HistoryEntry = HistoryEntry(
    messageId: MessageId,
    retrievalHint: Option<Bytes>,
    senderId: Option<ParticipantId>)

  datatype Message = Message(
    messageId: MessageId,
    channelId: ChannelId,
    senderId: ParticipantId,
    causalHistory: seq<HistoryEntry>,
    lamportTimestamp: Option<nat>,
    bloomFilter: Option<Bytes>,
    content: Option<Bytes>,
    repairRequest: seq<HistoryEntry>)

  predicate HasContent(m: Message) {
    m.content.Some? && |m.content.value| > 0
  }

  predicate IsContent(m: Message) {
    m.lamportTimestamp.Some? && HasContent(m)
  }

  predicate IsSync(m: Message) {
    m.lamportTimestamp.Some? && !HasContent(m)
  }

  predicate IsEphemeral(m: Message) {
    m.lamportTimestamp.None? && HasContent(m)
  }

  /** The three tests exclude one another, and between them they miss exactly
      the messages with neither a timestamp nor content. */
  lemma ClassesExclusive(m: Message)
    ensures !(IsContent(m) && IsSync(m)) && !(IsContent(m) && IsEphemeral(m)) && !(IsSync(m) && IsEphemeral(m))
    ensures IsContent(m) || IsSync(m) || IsEphemeral(m) <==> m.lamportTimestamp.Some? || HasContent(m)
  {
  }

  /** The ids named by history entries. */
  function EntryIds(es: seq<HistoryEntry>): set<MessageId> {
    set e | e in es :: e.messageId
  }

  /** The ids of messages. */
  function Ids(ms: seq<Message>): set<MessageId> {
    set m | m in ms :: m.messageId
  }

  lemma IdsAppend(a: seq<Message>, b: seq<Message>)
    ensures Ids(a + b) == Ids(a) + Ids(b)
  {
    forall x ensures x in Ids(a + b) <==> x in Ids(a) + Ids(b) {
      if x in Ids(a) {
        var m :| m in a && m.messageId == x;
        assert m in a + b;
      }
      if x in Ids(b) {
        var m :| m in b && m.messageId == x;
        assert m in a + b;
      }
    }
  }

  lemma IdsOfElems(a: seq<Message>, b: seq<Message>)
    requires Elems(a) == Elems(b)
    ensures Ids(a) == Ids(b)
  {
    forall x ensures x in Ids(a) <==> x in Ids(b) {
      if x in Ids(a) {
        var m :| m in a && m.messageId == x;
        assert m in Elems(b);
      }
      if x in Ids(b) {
        var m :| m in b && m.messageId == x;
        assert m in Elems(a);
      }
    }
  }

  ghost predicate DistinctIds(ms: seq<Message>) {
    forall i, j :: 0 <= i < j < |ms| ==> ms[i].messageId != ms[j].messageId
  }

  /** An id determines its message: what "a payload is not reused" comes to, ids
      being hashes of payloads. */
  ghost predicate IdDetermines(ms: set<Message>) {
    forall a, b :: a in ms && b in ms && a.messageId == b.messageId ==> a == b
  }

  /** The first message carrying `id`, as `Array.prototype.find` returns it. */
  function Find(ms: seq<Message>, id: MessageId): (r: Option<Message>)
    ensures r.Some? <==> id in Ids(ms)
    ensures r.Some? ==> r.value in ms && r.value.messageId == id
  {
    if |ms| == 0 then None
    else if ms[0].messageId == id then Some(ms[0])
    else
      var r := Find(ms[1..], id);
      assert forall m :: m in ms <==> m == ms[0] || m in ms[1..];
      r
  }
}
