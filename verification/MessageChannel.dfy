/** The message channel as an object: each method against the functions of
    `Channel`. */
module MessageChannel {
  import opened Basics
  import opened Messages
  import opened Bloom
  import opened LocalHistory
  import opened Repair
  import opened Channel
  import opened Participant

  lemma {:induction false} NotNamedTwice(ms: seq<Message>, a: set<MessageId>, b: set<MessageId>)
    ensures NotNamed(NotNamed(ms, a), b) == NotNamed(ms, a + b)
  {
    if |ms| > 0 {
      var p, l := ms[..|ms| - 1], ms[|ms| - 1];
      NotNamedTwice(p, a, b);
      var kept := NotNamed(p, a);
      assert (kept + [l])[..|kept|] == kept;
    }
  }

  lemma {:induction false} NotNamedNone(ms: seq<Message>)
    ensures NotNamed(ms, {}) == ms
  {
    if |ms| > 0 {
      NotNamedNone(ms[..|ms| - 1]);
    }
  }

  /** The clock readings and the callback's answer that one task meets. */
  datatype Answer = Answer(now: nat, hints: map<MessageId, Bytes>, success: bool, later: nat)

  /** One task run to its end. */
  ghost function Executed(cfg: Config, st: ChannelState, task: Task, answer: Answer): (r: ChannelState)
    requires Shape(cfg, st)
    ensures Shape(cfg, r)
  {
    match task
    case SendTask(payload, hasCallback) =>
      var (created, m) := ContentCreated(cfg, st, payload, answer.now, answer.hints);
      if hasCallback && answer.success && IsContent(m) then Committed(cfg, created, m, answer.later) else created
    case ReceiveTask(m) => Received(cfg, st, m, answer.now)
    case SendEphemeralTask(_, _) => st
  }

  ghost function AllExecuted(cfg: Config, st: ChannelState, tasks: seq<Task>, answers: seq<Answer>): (r: ChannelState)
    requires Shape(cfg, st) && |tasks| <= |answers|
    ensures Shape(cfg, r)
  {
    if |tasks| == 0 then st
    else Executed(cfg, AllExecuted(cfg, st, tasks[..|tasks| - 1], answers), tasks[|tasks| - 1], answers[|tasks| - 1])
  }

  /** A task run to its end is a start of a loop followed by its resumption with
      nothing in between. */
  lemma ExecutedIsStartThenResume(cfg: Config, p: Participant, i: nat, answer: Answer)
    requires Shape(cfg, p.core.ch) && Starts(p, Start(i, answer.now, answer.hints))
    ensures var started := Step(cfg, p, Start(i, answer.now, answer.hints));
            var resumed := Step(cfg, started, Resume(i, answer.success, answer.later));
            resumed.core.ch == Executed(cfg, p.core.ch, p.tasks[0], answer) && resumed.tasks == p.tasks[1..]
  {
  }

  class MessageChannel {
    const cfg: Config
    var lamportTimestamp: nat
    const filter: BloomFilter
    var outgoingBuffer: seq<Message>
    var possibleAcks: map<MessageId, nat>
    var incomingBuffer: seq<Message>
    const localHistory: MemLocalHistory
    var timeReceived: map<MessageId, nat>
    const repairManager: RepairManager
    var tasks: seq<Task>

    ghost function Parts(): set<object>
      reads this
    {
      {filter.data, localHistory, repairManager.outgoingBuffer, repairManager.incomingBuffer}
    }

    ghost predicate Valid()
      reads this, filter, repairManager, Parts()
    {
      && cfg.Valid()
      && filter.Valid() && filter.options == cfg.filter
      && localHistory.maxLength == cfg.maxLength
      && repairManager.Valid() && repairManager.params == cfg.repair
    }

    ghost function State(): (st: ChannelState)
      requires Valid()
      reads this, filter, repairManager, Parts()
      ensures Shape(cfg, st)
    {
      ChannelState(lamportTimestamp, filter.data[..], outgoingBuffer, possibleAcks, incomingBuffer,
                   localHistory.items, timeReceived, repairManager.State())
    }

    constructor (cfg: Config, now: nat, groups: nat)
      requires cfg.Valid()
      ensures Valid() && this.cfg == cfg && State() == Initial(cfg, now, groups) && tasks == []
      ensures fresh(Parts()) && fresh(filter) && fresh(repairManager)
    {
      this.cfg := cfg;
      lamportTimestamp := now;
      filter := new BloomFilter(cfg.filter);
      outgoingBuffer := [];
      possibleAcks := map[];
      incomingBuffer := [];
      localHistory := new MemLocalHistory(cfg.maxLength);
      timeReceived := map[];
      repairManager := new RepairManager(cfg.repair, groups);
      tasks := [];
    }

    method HasPendingRepairRequests(now: nat) returns (pending: bool)
      requires Valid()
      ensures pending <==> cfg.repairEnabled && exists s :: s in State().repair.requests && s.due <= now
    {
      pending := false;
      if cfg.repairEnabled {
        pending := repairManager.HasReady(now);
      }
    }

    // Queueing.

    method PushOutgoingMessage(payload: Bytes, hasCallback: bool) returns (r: Result<nat>)
      requires Valid()
      modifies this`tasks
      ensures Valid() && State() == old(State())
      ensures |payload| == 0 ==> r.Failure? && tasks == old(tasks)
      ensures |payload| > 0 ==> r.Success? && tasks == old(tasks) + [SendTask(payload, hasCallback)]
    {
      if |payload| == 0 {
        return Failure("Only messages with valid payloads are allowed");
      }
      tasks := tasks + [SendTask(payload, hasCallback)];
      r := Success(|tasks|);
    }

    method PushOutgoingEphemeralMessage(payload: Bytes, hasCallback: bool)
      requires Valid()
      modifies this`tasks
      ensures Valid() && State() == old(State()) && tasks == old(tasks) + [SendEphemeralTask(payload, hasCallback)]
    {
      tasks := tasks + [SendEphemeralTask(payload, hasCallback)];
    }

    method PushIncomingMessage(message: Message)
      requires Valid()
      modifies this`tasks
      ensures Valid() && State() == old(State()) && tasks == old(tasks) + [ReceiveTask(message)]
    {
      tasks := tasks + [ReceiveTask(message)];
    }

    // Dependencies and delivery.

    method IsMessageAvailable(messageId: MessageId) returns (available: bool)
      requires Valid()
      ensures available <==> messageId in Available(State())
    {
      available := localHistory.Has(messageId);
      if !available {
        var waiting := Find(incomingBuffer, messageId);
        available := waiting.Some?;
      }
    }

    method MissingDependencies(deps: seq<HistoryEntry>) returns (missing: seq<HistoryEntry>)
      requires Valid()
      ensures missing == MissingEntries(deps, Available(State()))
    {
      missing := [];
      for i := 0 to |deps|
        invariant missing == MissingEntries(deps[..i], Available(State()))
      {
        assert deps[..i + 1][..i] == deps[..i];
        var available := IsMessageAvailable(deps[i].messageId);
        if !available {
          missing := missing + [deps[i]];
        }
      }
      assert deps[..|deps|] == deps;
    }

    method DeliverMessage(message: Message) returns (delivered: bool)
      requires Valid()
      modifies this`lamportTimestamp, localHistory
      ensures Valid() && State() == Delivered(cfg, old(State()), message)
      ensures delivered <==> IsContent(message)
    {
      if !IsContent(message) {
        return false;
      }
      if message.lamportTimestamp.value > lamportTimestamp {
        lamportTimestamp := message.lamportTimestamp.value;
      }
      var existing := Find(localHistory.items, message.messageId);
      if existing.Some? {
        return true;
      }
      var r := localHistory.Push([message]);
      return true;
    }

    // Acknowledgements.

    /** `false` when the original throws on a filter it cannot parse. */
    method ReviewAckStatus(message: Message) returns (parsed: bool)
      requires Valid()
      modifies this`outgoingBuffer, this`possibleAcks
      ensures Valid()
      ensures (outgoingBuffer, possibleAcks, parsed) ==
              Channel.ReviewAckStatus(cfg, old(outgoingBuffer), old(possibleAcks), message)
    {
      ReviewCausalHistory(message.causalHistory);
      if message.bloomFilter.None? {
        return true;
      }
      var messageBloomFilter := BloomFilter.FromBytes(message.bloomFilter.value, cfg.filter);
      if messageBloomFilter.None? {
        return false;
      }
      ReviewBloomFilter(messageBloomFilter.value);
      return true;
    }

    method ReviewCausalHistory(entries: seq<HistoryEntry>)
      modifies this`outgoingBuffer
      ensures outgoingBuffer == NotNamed(old(outgoingBuffer), EntryIds(entries))
    {
      NotNamedNone(outgoingBuffer);
      assert EntryIds(entries[..0]) == {};
      for i := 0 to |entries|
        invariant outgoingBuffer == NotNamed(old(outgoingBuffer), EntryIds(entries[..i]))
      {
        NotNamedTwice(old(outgoingBuffer), EntryIds(entries[..i]), {entries[i].messageId});
        assert entries[..i + 1] == entries[..i] + [entries[i]];
        assert EntryIds(entries[..i + 1]) == EntryIds(entries[..i]) + {entries[i].messageId};
        outgoingBuffer := NotNamed(outgoingBuffer, {entries[i].messageId});
      }
      assert entries[..|entries|] == entries;
    }

    method ReviewBloomFilter(messageBloomFilter: BloomFilter)
      requires messageBloomFilter.Valid() && messageBloomFilter.options == cfg.filter
      modifies this`outgoingBuffer, this`possibleAcks
      ensures (outgoingBuffer, possibleAcks) ==
              ReviewFilter(cfg, messageBloomFilter.data[..], old(outgoingBuffer), old(possibleAcks))
    {
      var buffer, kept := outgoingBuffer, [];
      for i := 0 to |buffer|
        invariant (kept, possibleAcks) == ReviewFilter(cfg, messageBloomFilter.data[..], buffer[..i], old(possibleAcks))
      {
        assert buffer[..i + 1][..i] == buffer[..i];
        var message := buffer[i];
        var found := messageBloomFilter.Lookup(message.messageId);
        if !found {
          kept := kept + [message];
        } else {
          var count := AckCount(possibleAcks, message.messageId) + 1;
          if count < cfg.possibleAcksThreshold {
            possibleAcks := possibleAcks[message.messageId := count];
            kept := kept + [message];
          } else {
            possibleAcks := possibleAcks - {message.messageId};
          }
        }
      }
      assert buffer[..|buffer|] == buffer;
      outgoingBuffer := kept;
    }

    // Receiving.

    /** `_pushIncomingMessage`. */
    method ReceiveMessage(message: Message, now: nat)
      requires Valid()
      modifies this`lamportTimestamp, this`outgoingBuffer, this`possibleAcks, this`incomingBuffer, this`timeReceived,
          Parts()
      ensures Valid() && State() == Received(cfg, old(State()), message, now)
    {
      if message.channelId != cfg.channelId {
        return;
      }
      var isDuplicate := HasContent(message) && message.messageId in timeReceived;
      if isDuplicate {
        return;
      }
      if cfg.senderId == message.senderId {
        return;
      }
      if IsEphemeral(message) {
        return;
      }
      if !IsSync(message) && !IsContent(message) {
        return;
      }
      if cfg.repairEnabled {
        repairManager.MarkMessageReceived(message.messageId);
        if |message.repairRequest| > 0 {
          repairManager.ProcessIncomingRepairRequests(message.repairRequest, localHistory, now);
        }
      }
      assert repairManager.State() == RepairOnReceive(cfg, old(State()), message, now);
      var parsed := ReviewAckStatus(message);
      if !parsed {
        return;
      }
      if IsContent(message) {
        filter.Insert(message.messageId);
      }
      Admit(message, now);
    }

    method Admit(message: Message, now: nat)
      requires Valid()
      modifies this`lamportTimestamp, this`incomingBuffer, this`timeReceived, localHistory, repairManager.outgoingBuffer
      ensures Valid() && State() == Admitted(cfg, old(State()), message, now)
    {
      var missingDependencies := MissingDependencies(message.causalHistory);
      if |missingDependencies| > 0 {
        incomingBuffer := incomingBuffer + [message];
        timeReceived := timeReceived[message.messageId := now];
        if cfg.repairEnabled {
          repairManager.MarkDependenciesMissing(missingDependencies, now);
        }
      } else {
        if IsContent(message) {
          var delivered := DeliverMessage(message);
        }
      }
    }

    // Sending.

    method CausalHistory(hints: map<MessageId, Bytes>) returns (entries: seq<HistoryEntry>)
      requires Valid()
      ensures entries == EntriesFor(Recent(State().log, cfg.causalHistorySize), hints)
    {
      var n := |localHistory.items|;
      var from := if cfg.causalHistorySize == 0 || n <= cfg.causalHistorySize then 0 else n - cfg.causalHistorySize;
      entries := EntriesFor(localHistory.items[from..], hints);
    }

    method GetRepairRequests(now: nat) returns (requests: seq<HistoryEntry>)
      requires Valid()
      modifies repairManager.outgoingBuffer
      ensures Valid() && (repairManager.State(), requests) == TakeRepairRequests(cfg, old(repairManager.State()), now)
    {
      requests := [];
      if cfg.repairEnabled {
        requests := repairManager.GetRepairRequests(MAX_REPAIR_REQUESTS_PER_MESSAGE, now);
      }
    }

    /** `_pushOutgoingMessage` up to the callback, which is given the message. */
    method SendMessage(payload: Bytes, now: nat, hints: map<MessageId, Bytes>) returns (message: Message)
      requires Valid()
      modifies this`lamportTimestamp, this`outgoingBuffer, repairManager.outgoingBuffer
      ensures Valid() && (State(), message) == ContentCreated(cfg, old(State()), payload, now, hints)
    {
      lamportTimestamp := LamportTimestampIncrement(lamportTimestamp, now);
      var messageId := cfg.messageIdOf(payload);
      var buffered := Find(outgoingBuffer, messageId);
      if buffered.Some? {
        return buffered.value;
      }
      var repairRequests := GetRepairRequests(now);
      var causalHistory := CausalHistory(hints);
      var bytes := filter.ToBytes();
      message := Message(messageId, cfg.channelId, cfg.senderId, causalHistory, Option.Some(lamportTimestamp),
                         Option.Some(bytes), Option.Some(payload), repairRequests);
      outgoingBuffer := outgoingBuffer + [message];
    }

    /** `_pushOutgoingMessage` once the callback has reported success. */
    method CommitMessage(message: Message, now: nat)
      requires Valid() && IsContent(message)
      modifies this`timeReceived, filter.data, localHistory
      ensures Valid() && State() == Committed(cfg, old(State()), message, now)
    {
      filter.Insert(message.messageId);
      var r := localHistory.Push([message]);
      timeReceived := timeReceived[message.messageId := now];
    }

    /** The random part of the id is given. */
    method PushOutgoingSyncMessage(id: MessageId, now: nat, hints: map<MessageId, Bytes>)
        returns (message: Option<Message>)
      requires Valid()
      modifies this`lamportTimestamp, repairManager.outgoingBuffer
      ensures Valid() && (State(), message) == SyncCreated(cfg, old(State()), id, now, hints)
    {
      lamportTimestamp := LamportTimestampIncrement(lamportTimestamp, now);
      var repairRequests := GetRepairRequests(now);
      var causalHistory := CausalHistory(hints);
      var bytes := filter.ToBytes();
      var m := Message(id, cfg.channelId, cfg.senderId, causalHistory, Option.Some(lamportTimestamp),
                       Option.Some(bytes), Option.None, repairRequests);
      if |m.causalHistory| == 0 && |repairRequests| == 0 {
        return Option.None;
      }
      return Option.Some(m);
    }

    // The task queue.

    /** One loop of `processTasks` with no other in flight. */
    method ProcessTasks(answers: seq<Answer>)
      requires Valid() && |tasks| <= |answers|
      modifies this, Parts()
      ensures Valid() && tasks == [] && State() == AllExecuted(cfg, old(State()), old(tasks), answers)
    {
      hide Executed;
      ghost var queued := tasks;
      var n := 0;
      while |tasks| > 0
        invariant Valid() && 0 <= n <= |queued| && tasks == queued[n..]
        invariant State() == AllExecuted(cfg, old(State()), queued[..n], answers)
        decreases |tasks|
      {
        var item := tasks[0];
        tasks := tasks[1..];
        assert queued[..n + 1][..n] == queued[..n];
        ExecuteTask(item, answers[n]);
        n := n + 1;
      }
      assert queued[..n] == queued;
    }

    method ExecuteTask(item: Task, answer: Answer)
      requires Valid()
      modifies this`lamportTimestamp, this`outgoingBuffer, this`possibleAcks, this`incomingBuffer, this`timeReceived,
          Parts()
      ensures Valid() && State() == Executed(cfg, old(State()), item, answer)
    {
      match item
      case SendTask(payload, hasCallback) =>
        var message := SendMessage(payload, answer.now, answer.hints);
        if hasCallback {
          if answer.success && IsContent(message) {
            CommitMessage(message, answer.later);
          }
        }
      case ReceiveTask(message) => ReceiveMessage(message, answer.now);
      case SendEphemeralTask(_, _) =>
    }

    // Sweeping.

    method SweepIncomingBuffer(now: nat) returns (missing: seq<HistoryEntry>)
      requires Valid()
      modifies this`lamportTimestamp, this`incomingBuffer, localHistory
      ensures Valid() && (State(), missing) == Swept(cfg, old(State()), now)
    {
      hide MissingEntries, Delivered, Available;
      var buffer: seq<Message> := [];
      missing := [];
      for i := 0 to |incomingBuffer|
        invariant Valid() && incomingBuffer == old(incomingBuffer)
        invariant SweepState(State(), buffer, missing) == SweepFirst(cfg, old(State()), i, now)
      {
        var message := incomingBuffer[i];
        var missingDependencies := MissingDependencies(message.causalHistory);
        if |missingDependencies| == 0 {
          var delivered := DeliverMessage(message);
          continue;
        }
        if cfg.timeoutForLostMessagesMs > 0 && message.messageId in timeReceived {
          var received := timeReceived[message.messageId];
          if received != 0 && now - received > cfg.timeoutForLostMessagesMs {
            var delivered := DeliverMessage(message);
            continue;
          }
        }
        missing := missing + missingDependencies;
        buffer := buffer + [message];
      }
      incomingBuffer := buffer;
    }

    method SweepOutgoingBuffer() returns (unacknowledged: seq<Message>, possiblyAcknowledged: seq<Message>)
      requires Valid()
      ensures unacknowledged == WithAckState(State().outgoing, State().acks, false)
      ensures possiblyAcknowledged == WithAckState(State().outgoing, State().acks, true)
    {
      unacknowledged, possiblyAcknowledged := [], [];
      for i := 0 to |outgoingBuffer|
        invariant unacknowledged == WithAckState(outgoingBuffer[..i], possibleAcks, false)
        invariant possiblyAcknowledged == WithAckState(outgoingBuffer[..i], possibleAcks, true)
      {
        assert outgoingBuffer[..i + 1][..i] == outgoingBuffer[..i];
        var message := outgoingBuffer[i];
        if message.messageId in possibleAcks {
          possiblyAcknowledged := possiblyAcknowledged + [message];
        } else {
          unacknowledged := unacknowledged + [message];
        }
      }
      assert outgoingBuffer[..|outgoingBuffer|] == outgoingBuffer;
    }

    method SweepRepairIncomingBuffer(now: nat) returns (repairs: seq<Message>)
      requires Valid()
      modifies repairManager.incomingBuffer
      ensures Valid()
      ensures cfg.repairEnabled ==>
                (State().repair, repairs) == SweepResponses(old(State()).repair, old(State()).log, now)
                && State() == old(State()).(repair := State().repair)
      ensures !cfg.repairEnabled ==> State() == old(State()) && repairs == []
    {
      repairs := [];
      if cfg.repairEnabled {
        repairs := repairManager.SweepIncomingBuffer(localHistory, now);
      }
    }
  }
}
