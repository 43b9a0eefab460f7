/** One participant's message channel, as functions on its state. */
module Channel {
  import opened Basics
  import opened Messages
  import opened Bloom
  import opened LocalHistory
  import opened Repair

  const MAX_REPAIR_REQUESTS_PER_MESSAGE: nat := 3

  /** A timeout of zero is off. */
  datatype Config = Config(
    channelId: ChannelId,
    senderId: ParticipantId,
    causalHistorySize: nat,
    possibleAcksThreshold: nat,
    timeoutForLostMessagesMs: nat,
    maxLength: nat,
    repairEnabled: bool,
    repair: RepairParams,
    filter: FilterOptions,
    messageIdOf: Bytes -> MessageId)
  {
    ghost predicate Valid() {
      filter.Valid() && repair.Valid() && repair.participantId == senderId
    }
  }

  datatype ChannelState = ChannelState(
    clock: nat,
    filter: seq<nat>,
    outgoing: seq<Message>,
    acks: map<MessageId, nat>,
    incoming: seq<Message>,
    log: seq<Message>,
    received: map<MessageId, nat>,
    repair: RepairState)

  ghost predicate Shape(cfg: Config, st: ChannelState) {
    cfg.Valid() && WellSized(cfg.filter, st.filter)
  }

  ghost function Initial(cfg: Config, now: nat, groups: nat): ChannelState {
    ChannelState(now, Empty(cfg.filter), [], map[], [], [], map[], RepairState([], [], groups))
  }

  // The clock.

  function LamportTimestampIncrement(clock: nat, now: nat): nat {
    Max(clock + 1, now)
  }

  // Dependencies.

  /** In the log, or received and still waiting. */
  function Available(st: ChannelState): set<MessageId> {
    Ids(st.log) + Ids(st.incoming)
  }

  function MissingEntries(deps: seq<HistoryEntry>, have: set<MessageId>): seq<HistoryEntry> {
    if |deps| == 0 then []
    else
      var p := MissingEntries(deps[..|deps| - 1], have);
      if deps[|deps| - 1].messageId in have then p else p + [deps[|deps| - 1]]
  }

  lemma {:induction false} MissingEntriesExactly(deps: seq<HistoryEntry>, have: set<MessageId>)
    ensures forall e :: e in MissingEntries(deps, have) <==> e in deps && e.messageId !in have
    ensures MissingEntries(deps, have) == [] <==> EntryIds(deps) <= have
  {
    if |deps| > 0 {
      var p, l := deps[..|deps| - 1], deps[|deps| - 1];
      assert deps == p + [l];
      MissingEntriesExactly(p, have);
      assert EntryIds(deps) == EntryIds(p) + {l.messageId};
    }
  }

  // Delivery.

  function Delivered(cfg: Config, st: ChannelState, m: Message): ChannelState {
    if !IsContent(m) then st
    else
      var c := st.(clock := Max(st.clock, m.lamportTimestamp.value));
      if m.messageId in Ids(c.log) then c else c.(log := Pushed(c.log, [m], cfg.maxLength))
  }

  // Acknowledgements.

  /** The messages whose ids are not among those named. */
  function NotNamed(ms: seq<Message>, named: set<MessageId>): seq<Message> {
    if |ms| == 0 then []
    else
      var p := NotNamed(ms[..|ms| - 1], named);
      if ms[|ms| - 1].messageId in named then p else p + [ms[|ms| - 1]]
  }

  function AckCount(acks: map<MessageId, nat>, id: MessageId): nat {
    if id in acks then acks[id] else 0
  }

  /** The outgoing buffer and the possible acknowledgements after one filter: a
      message found in it counts once more, and leaves at the threshold. */
  ghost function ReviewFilter(cfg: Config, words: seq<nat>, ms: seq<Message>, acks: map<MessageId, nat>)
    : (seq<Message>, map<MessageId, nat>)
  {
    if |ms| == 0 then ([], acks)
    else
      var r := ReviewFilter(cfg, words, ms[..|ms| - 1], acks);
      var m := ms[|ms| - 1];
      if !Contains(cfg.filter, words, m.messageId) then (r.0 + [m], r.1)
      else
        var count := AckCount(r.1, m.messageId) + 1;
        if count < cfg.possibleAcksThreshold then (r.0 + [m], r.1[m.messageId := count])
        else (r.0, r.1 - {m.messageId})
  }

  /** `None` when the filter cannot be parsed: the original throws, after the
      causal history has been reviewed and before anything else. */
  ghost function ReviewAckStatus(cfg: Config, outgoing: seq<Message>, acks: map<MessageId, nat>, m: Message)
    : (seq<Message>, map<MessageId, nat>, bool)
    requires cfg.Valid()
  {
    var unnamed := NotNamed(outgoing, EntryIds(m.causalHistory));
    if m.bloomFilter.None? then (unnamed, acks, true)
    else
      var words := BytesToWords(m.bloomFilter.value, cfg.filter.NumWords());
      if words.Failure? then (unnamed, acks, false)
      else
        var r := ReviewFilter(cfg, words.value, unnamed, acks);
        (r.0, r.1, true)
  }

  // Receiving.

  predicate Ignored(cfg: Config, st: ChannelState, m: Message) {
    || m.channelId != cfg.channelId
    || (HasContent(m) && m.messageId in st.received)
    || m.senderId == cfg.senderId
    || m.lamportTimestamp.None?
  }

  function RepairOnReceive(cfg: Config, st: ChannelState, m: Message, now: nat): RepairState
    requires cfg.Valid()
  {
    if !cfg.repairEnabled then st.repair
    else ProcessRequests(cfg.repair, MarkReceived(st.repair, m.messageId), m.repairRequest, st.log, now)
  }

  /** Buffer a message that misses dependencies, deliver one that does not. */
  function Admitted(cfg: Config, st: ChannelState, m: Message, now: nat): ChannelState
    requires cfg.Valid()
  {
    var missing := MissingEntries(m.causalHistory, Available(st));
    if |missing| > 0 then
      st.(incoming := st.incoming + [m],
          received := st.received[m.messageId := now],
          repair := if cfg.repairEnabled
                    then st.repair.(requests := MarkMissing(cfg.repair, st.repair.requests, missing, now))
                    else st.repair)
    else Delivered(cfg, st, m)
  }

  ghost function Received(cfg: Config, st: ChannelState, m: Message, now: nat): (r: ChannelState)
    requires Shape(cfg, st)
    ensures Shape(cfg, r)
  {
    if Ignored(cfg, st, m) then st
    else
      var (outgoing, acks, parsed) := ReviewAckStatus(cfg, st.outgoing, st.acks, m);
      var reviewed := st.(repair := RepairOnReceive(cfg, st, m, now), outgoing := outgoing, acks := acks);
      if !parsed then reviewed
      else if IsContent(m) then
        Admitted(cfg, reviewed.(filter := Inserted(cfg.filter, reviewed.filter, m.messageId)), m, now)
      else Admitted(cfg, reviewed, m, now)
  }

  // Sending.

  /** `slice(-size)`; and since `-0` is `0`, a size of zero names the whole log. */
  function Recent(log: seq<Message>, size: nat): seq<Message> {
    if size == 0 then log else LastN(log, size)
  }

  /** History entries for messages. The hints, which the transport supplies after
      the fact, decide nothing and are taken as given. */
  function EntriesFor(ms: seq<Message>, hints: map<MessageId, Bytes>): (r: seq<HistoryEntry>)
    ensures |r| == |ms|
    ensures forall i :: 0 <= i < |r| ==> r[i].messageId == ms[i].messageId && r[i].senderId == Some(ms[i].senderId)
    ensures forall e :: e in r ==>
              e.retrievalHint == if e.messageId in hints then Some(hints[e.messageId]) else None
    ensures EntryIds(r) == Ids(ms)
  {
    var r := seq(|ms|, i requires 0 <= i < |ms| =>
      HistoryEntry(ms[i].messageId,
                   if ms[i].messageId in hints then Some(hints[ms[i].messageId]) else None,
                   Some(ms[i].senderId)));
    assert forall i :: 0 <= i < |r| ==> r[i] in r && ms[i] in ms;
    r
  }

  function TakeRepairRequests(cfg: Config, repair: RepairState, now: nat): (RepairState, seq<HistoryEntry>) {
    if cfg.repairEnabled then TakeRequests(repair, now, MAX_REPAIR_REQUESTS_PER_MESSAGE) else (repair, [])
  }

  /** A retry reuses the buffered message; otherwise a new one is built and
      buffered. The clock advances either way. */
  ghost function ContentCreated(cfg: Config, st: ChannelState, payload: Bytes, now: nat, hints: map<MessageId, Bytes>)
    : (ChannelState, Message)
  {
    var clock := LamportTimestampIncrement(st.clock, now);
    var id := cfg.messageIdOf(payload);
    var buffered := Find(st.outgoing, id);
    if buffered.Some? then (st.(clock := clock), buffered.value)
    else
      var (repair, requests) := TakeRepairRequests(cfg, st.repair, now);
      var m := Message(id, cfg.channelId, cfg.senderId, EntriesFor(Recent(st.log, cfg.causalHistorySize), hints),
                       Some(clock), Some(WordsToBytes(st.filter)), Some(payload), requests);
      (st.(clock := clock, repair := repair, outgoing := st.outgoing + [m]), m)
  }

  /** The second half of a send, once the callback reports success. */
  ghost function Committed(cfg: Config, st: ChannelState, m: Message, now: nat): (r: ChannelState)
    requires Shape(cfg, st)
    ensures Shape(cfg, r)
  {
    st.(filter := Inserted(cfg.filter, st.filter, m.messageId),
        log := Pushed(st.log, [m], cfg.maxLength),
        received := st.received[m.messageId := now])
  }

  /** A sync message with nothing to say is not sent. */
  ghost function SyncCreated(cfg: Config, st: ChannelState, id: MessageId, now: nat, hints: map<MessageId, Bytes>)
    : (ChannelState, Option<Message>)
  {
    var clock := LamportTimestampIncrement(st.clock, now);
    var (repair, requests) := TakeRepairRequests(cfg, st.repair, now);
    var m := Message(id, cfg.channelId, cfg.senderId, EntriesFor(Recent(st.log, cfg.causalHistorySize), hints),
                     Some(clock), Some(WordsToBytes(st.filter)), None, requests);
    (st.(clock := clock, repair := repair),
     if |m.causalHistory| == 0 && |requests| == 0 then None else Some(m))
  }

  // Sweeping the incoming buffer.

  datatype SweepState = SweepState(st: ChannelState, buffer: seq<Message>, missing: seq<HistoryEntry>)

  predicate TimedOut(cfg: Config, st: ChannelState, m: Message, now: nat) {
    && cfg.timeoutForLostMessagesMs > 0
    && m.messageId in st.received && st.received[m.messageId] != 0
    && now - st.received[m.messageId] > cfg.timeoutForLostMessagesMs
  }

  /** One step of the fold. The incoming buffer of the state it threads is the
      one the sweep began with; the log is the one built so far. */
  function SweepMessage(cfg: Config, acc: SweepState, m: Message, now: nat): SweepState {
    var missing := MissingEntries(m.causalHistory, Available(acc.st));
    if |missing| == 0 || TimedOut(cfg, acc.st, m, now) then acc.(st := Delivered(cfg, acc.st, m))
    else acc.(buffer := acc.buffer + [m], missing := acc.missing + missing)
  }

  function SweepFirst(cfg: Config, st: ChannelState, n: nat, now: nat): SweepState
    requires n <= |st.incoming|
  {
    if n == 0 then SweepState(st, [], [])
    else SweepMessage(cfg, SweepFirst(cfg, st, n - 1, now), st.incoming[n - 1], now)
  }

  function Swept(cfg: Config, st: ChannelState, now: nat): (ChannelState, seq<HistoryEntry>) {
    var r := SweepFirst(cfg, st, |st.incoming|, now);
    (r.st.(incoming := r.buffer), r.missing)
  }

  // Sweeping the outgoing buffer.

  /** The outgoing buffer split by whether a message has a possible acknowledgement. */
  function WithAckState(ms: seq<Message>, acks: map<MessageId, nat>, possibly: bool): seq<Message> {
    if |ms| == 0 then []
    else
      var p := WithAckState(ms[..|ms| - 1], acks, possibly);
      if (ms[|ms| - 1].messageId in acks) == possibly then p + [ms[|ms| - 1]] else p
  }

  lemma {:induction false} OutgoingSweepPartitions(ms: seq<Message>, acks: map<MessageId, nat>)
    ensures multiset(WithAckState(ms, acks, true)) + multiset(WithAckState(ms, acks, false)) == multiset(ms)
    ensures forall m :: m in WithAckState(ms, acks, true) <==> m in ms && m.messageId in acks
    ensures forall m :: m in WithAckState(ms, acks, false) <==> m in ms && m.messageId !in acks
  {
    hide WithAckState;
    WithAckStateMembers(ms, acks, true);
    WithAckStateMembers(ms, acks, false);
    if |ms| > 0 {
      OutgoingSweepPartitions(ms[..|ms| - 1], acks);
      PartitionStep(ms[..|ms| - 1], ms[|ms| - 1], acks);
      assert ms == ms[..|ms| - 1] + [ms[|ms| - 1]];
    } else {
      NothingToPartition(acks);
      assert ms == [];
    }
  }

  /** And each half keeps the order of the buffer. */
  lemma {:induction false} OutgoingSweepOrder(ms: seq<Message>, acks: map<MessageId, nat>, possibly: bool)
    ensures Subsequence(WithAckState(ms, acks, possibly), ms)
  {
    if |ms| > 0 {
      var p, l := ms[..|ms| - 1], ms[|ms| - 1];
      assert ms == p + [l];
      OutgoingSweepOrder(p, acks, possibly);
      SubsequenceSnoc(WithAckState(p, acks, possibly), p, l);
    }
  }

  lemma NothingToPartition(acks: map<MessageId, nat>)
    ensures WithAckState([], acks, true) == [] && WithAckState([], acks, false) == []
  {
  }

  lemma PartitionStep(p: seq<Message>, l: Message, acks: map<MessageId, nat>)
    ensures multiset(WithAckState(p + [l], acks, true)) + multiset(WithAckState(p + [l], acks, false)) ==
            multiset(WithAckState(p, acks, true)) + multiset(WithAckState(p, acks, false)) + multiset{l}
  {
    assert (p + [l])[..|p|] == p;
  }

  lemma {:induction false} WithAckStateMembers(ms: seq<Message>, acks: map<MessageId, nat>, possibly: bool)
    ensures forall m :: m in WithAckState(ms, acks, possibly) <==> m in ms && (m.messageId in acks) == possibly
  {
    if |ms| > 0 {
      WithAckStateMembers(ms[..|ms| - 1], acks, possibly);
      assert ms == ms[..|ms| - 1] + [ms[|ms| - 1]];
    }
  }
}
