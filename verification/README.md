# SDS message channel and codecs: a Dafny model

A model of the Scalable Data Sync (SDS) message channel of this repository, with its
SDS-R repair layer, and of four pieces of code with sharp arithmetic around it: the SDS
protobuf codec, the relay shard codec, the payload envelope and the store query. The
protocol follows https://rfc.vac.dev/vac/raw/sds/; the wire format follows the Protocol
Buffers encoding specification, sections "Base 128 Varints" and "Message Structure"; the
shard format 51/WAKU2-RELAY-SHARDING; the envelope 26/WAKU2-PAYLOAD.

`dafny verify dfyconfig.toml` verifies everything.

## How it is laid out

The channel is modelled three times over, each level tied to the next.

* **Functions on the state** (`Channel`, over `LocalHistory`, `Bloom`, `RepairBuffers`,
  `Repair`): what one reception, send, commit, sweep or sync makes of a state.
  `Building` and `Reception` characterise them from outside: what a message that is built
  carries, when one that is received is processed and what becomes of it.
* **The objects** (`MessageChannel.MessageChannel`, `LocalHistory.MemLocalHistory`,
  `Bloom.BloomFilter`, `RepairBuffers.OutgoingRepairBuffer` and `IncomingRepairBuffer`,
  `Repair.RepairManager`): classes with the original's fields, whose methods are loops and
  updates proved equal to those functions.
* **Runs** (`Participant`, `Network`): `Participant` adds the task queue and any number of
  concurrent task loops, each of which may be suspended at the callback of a send, and a
  history of what was built, reviewed and delivered, and folds arbitrary sequences of
  actions. `Network` puts any number of participants on a network that is the set of
  messages ever built: losing a message is never receiving it, duplicating it is receiving
  it again, reordering is free choice. `Clocks`, `KnownIds`, `Acknowledgements`, `Closure`,
  `RepairRequests`, `RepairAnswers`, `Convergence` and `Resending` hold one protocol property
  each, and `CaughtUp` draws them together.

Clock readings, the callback's answer, the participant count and random padding are
arbitrary values at each step. SHA-256 (as message ids and repair hashes), `hashN`, keccak,
signing and key recovery are parameters of which only the range is known. A JavaScript
exception is a `Failure` or `None`. Message ids depend on the payload only; where a property
needs payloads not to be reused, `Network.HonestRun` says so: a content message is built only
under an id that no message in circulation has, so a resend is a retry of an unacknowledged
message.

## Where the code and its description differ

The model follows the code in each case.

* The split of a time range drops the last partial sub-range whenever the range exceeds a
  day: `StoreQuery.SplitExact`, `StoreQuery.RemainderLost`.
* A payload of 2^24 bytes or more does not survive the envelope: `Envelope.RoundTrip`,
  `Envelope.LongPayloadLost`.
* The retry guard covers unacknowledged payloads only. A resend after the acknowledgement
  builds a message that may name itself, and receivers that do not have it buffer it and ask
  for it:
  `Resending.AcknowledgedResendNamesItself`, `RepairRequests.SelfDependencyIsAskedFor`.
* An acknowledgement by name leaves the possible-acknowledgement count behind, and a message
  built later under the same id starts from it and leaves too early:
  `Acknowledgements.StaleCountSurvives`, `RebuiltCountExact`, `StaleMessageLeavesEarly`. The
  exact acknowledgement theorem therefore asks that a message is built only when no count is
  left under its id (`Unstale`); not reusing payloads implies it.
* Delivery waits for dependencies to be received, not delivered: `Closure.DependencyMayStillWait`.
* A full repair buffer evicts its furthest entry even when the newcomer is further still:
  `RepairBuffers.EvictionExact` says when the earliest N survive and
  `RepairBuffers.EarliestKept` what always does.
* `hasRequestsReady` looks at due times only and may be true with nothing left to request:
  `Repair.ReadyWithNothingToRequest` says when.
* A filter that cannot be parsed makes reception stop halfway: the history has been reviewed,
  but the message is not inserted, buffered or delivered. `Channel.Received` models this.
* A causal history size of zero names the whole log, since `slice(-0)` is `slice(0)`:
  `Building.RecentEntries`.
* The description of the local history allows it to exceed its limit between pushes; the code
  truncates within the push: `LocalHistory.MemLocalHistory.Push`.

## Model

| member | source | states |
|---|---|---|
| `Network.NamedIsEarlier` | packages/sds/src/message_channel/message_channel.ts:443-467 | In every run of any number of participants over a network that loses, duplicates and reorders, with payloads not reused, a message that names another in its causal history carries a strictly greater timestamp |
| `Network.DependenciesAcyclic` | packages/sds/src/message_channel/message_channel.ts:647-694 | Hence no path of named dependencies among all messages ever sent returns to where it began |
| `Network.AcknowledgedInTime` | packages/sds/src/message_channel/message_channel.ts:838-878 | Acknowledgement completeness across nodes: a message still in its author's outgoing buffer has met fewer than `possibleAcksThreshold` processed messages built by participants that had themselves processed it |
| `Network.InformedFilterHas` | packages/sds/src/message_channel/message_channel.ts:676-689 | Whoever has processed an id sends filters that contain it, as any other participant reads them |
| `Network.LogsConverge` | packages/sds/src/message_channel/message_channel.ts:771-807 | Participants of one network that have delivered the same set of messages hold the same log, truncated or not |
| `Network.LogsCausallyClosed` | packages/sds/src/message_channel/message_channel.ts:588-616 | Every dependency of a logged message is in that participant's log or incoming buffer, and in the log when the buffer is empty (timeout off, nothing truncated) |
| `Network.NobodyAsksForWhatItHas` | packages/sds/src/message_channel/message_channel.ts:564-605 | No participant of the network has in its outgoing repair buffer the id of another's message that it holds |
| `Network.RepairsAreInCirculation` | packages/sds/src/message_channel/message_channel.ts:402-430 | A repair rebroadcast is a copy of a message already in circulation |
| `Network.RepairsWereAskedFor` | packages/sds/src/message_channel/message_channel.ts:402-430 | And it answers a request, due by then, in a message in circulation from another participant, in a response group this node is in |
| `Network.NobodyNamesItself` | packages/sds/src/message_channel/message_channel.ts:655-694 | In every run with payloads not reused no message in circulation names itself |
| `Network.NamedCirculate` | packages/sds/src/message_channel/message_channel.ts:673-694 | Every id a message names belongs to a content message in circulation |
| `Network.BuiltBySomebody` | packages/sds/src/message_channel/message_channel.ts:647-694 | Every message in circulation carries the channel and the sender id of a participant, and its content is under its own id |
| `Network.ContentMatchesId` | packages/sds/src/message_channel/message_channel.ts:655-689 | With a shared hash, a content message in circulation carries exactly the content its id is the hash of |
| `Network.LoggedMatchesId` | packages/sds/src/message_channel/message_channel.ts:771-807 | And so does every message in any log of an honest run |
| `Network.ChannelsApart` | packages/sds/src/message_channel/message_channel.ts:511-515 | Participants on different channels never log, buffer or process each other's messages, nor hold one in common |
| `CaughtUp.CaughtUpParticipantsAgree` | packages/sds/src/message_channel/message_channel.ts:290-365 | When two participants that neither time out nor truncate have processed or committed every content message in circulation, one sweep each leaves both with an empty incoming buffer and the same log, that of all the content messages there are |
| `CaughtUp.SweepEmpties` | packages/sds/src/message_channel/message_channel.ts:290-365 | One sweep after catching up empties the incoming buffer |
| `CaughtUp.CaughtUpLog` | packages/sds/src/message_channel/message_channel.ts:771-807 | A participant that has caught up and has nothing waiting holds exactly the content messages in circulation, in key order |
| `CaughtUp.KnownRun` | packages/sds/src/message_channel/message_channel.ts:583-616 | What has been processed stays in the log or the incoming buffer (timeout off, nothing truncated) |
| `Network.NetRunIsLocal` | packages/sds/src/message_channel/message_channel.ts:168-177 | Each participant's share of a network run is a run of its own, so the single-participant theorems apply |
| `Participant.TasksStartInQueueOrder` | packages/sds/src/message_channel/message_channel.ts:168-177 | Under every interleaving of concurrent task loops with sends suspended at their callback, the tasks pushed are exactly the tasks started followed by the tasks pending |
| `Participant.OwnRun` | packages/sds/src/message_channel/message_channel.ts:647-715 | In every run, what the outgoing buffer and the suspended sends hold are messages this participant built, under distinct ids |
| `Clocks.ClockBoundsEveryRun` | packages/sds/src/message_channel/message_channel.ts:771-807 | In every run the clock bounds every timestamp in the log and every message built; each message built is later than each it names, and own messages are built with strictly increasing timestamps |
| `Clocks.ClockNeverDecreases` | packages/sds/src/message_channel/message_channel.ts:882-889 | The clock at any point of a run is at most the clock at any later point |
| `KnownIds.KnownInEveryRun` | packages/sds/src/message_channel/message_channel.ts:583-586 | Every content message processed and every own message committed is contained in the filter from then on, and in the bytes of every filter sent after |
| `Acknowledgements.AcknowledgementExact` | packages/sds/src/message_channel/message_channel.ts:812-879 | A buffered message leaves if and only if a message of another participant is processed that names it, or whose filter hit brings the number of hits since it was built to the threshold |
| `Acknowledgements.PossibleAcksBounded` | packages/sds/src/message_channel/message_channel.ts:845-878 | Stored possible-acknowledgement counts lie in [1, threshold - 1] in every run, payloads reused or not |
| `Acknowledgements.StaleCountSurvives` | packages/sds/src/message_channel/message_channel.ts:821-836 | A processed message that names a buffered one removes it and leaves its possible-acknowledgement count as it was, whatever filter it carries |
| `Acknowledgements.RebuiltCountExact` | packages/sds/src/message_channel/message_channel.ts:673-694 | A message built later under an id is counted exactly if and only if no count is left under that id |
| `Acknowledgements.HitsAddToCount` | packages/sds/src/message_channel/message_channel.ts:845-878 | A buffered message survives further filter hits exactly when its count and they stay below the threshold together |
| `Acknowledgements.StaleMessageLeavesEarly` | packages/sds/src/message_channel/message_channel.ts:838-878 | A message built over a count of k leaves at its (threshold - k)-th hit, before the threshold |
| `Closure.LogCausallyClosed` | packages/sds/src/message_channel/message_channel.ts:290-365 | Causal closure of one participant's log in every reachable state (timeout off, nothing truncated, only content messages named by what is received) |
| `Closure.SweepsAgreeInEveryRun` | packages/sds/src/message_channel/message_channel.ts:290-365 | In those states a second sweep changes nothing and returns what the first did |
| `Closure.DependencyMayStillWait` | packages/sds/src/message_channel/message_channel.ts:752-762 | The guarantee is no stronger: a message whose only dependency has arrived but is itself waiting is delivered ahead of it |
| `RepairRequests.NeverAsksForWhatItHas` | packages/sds/src/message_channel/message_channel.ts:564-605 | In every reachable state, provided that what is received does not name itself, no other participant's message that is held is being asked for, and both repair buffers keep their invariant |
| `RepairRequests.SelfDependencyIsAskedFor` | packages/sds/src/message_channel/message_channel.ts:588-605 | Whatever its history, a message newly buffered is asked for if and only if it names itself and its id was not available, given room for the requests |
| `RepairRequests.AllMissingAskedFor` | packages/sds/src/message_channel/repair/repair.ts:126-143 | With room, the ids asked for are those asked for before and those missing; slots before are kept and each new one is due at the time plus its request delay |
| `RepairRequests.ReceptionAsks` | packages/sds/src/message_channel/message_channel.ts:564-605 | Buffering a message, with room: its own id and those its sender asks for are no longer asked for, and then everything it misses is, each at its time |
| `RepairRequests.AskedByOthers` | packages/sds/src/message_channel/repair/repair.ts:189-191 | What another participant asks for, this one no longer asks for, whether or not it can answer |
| `Convergence.SameDeliveriesSameLog` | packages/sds/src/message_channel/message_channel.ts:771-807 | Two participants, whatever their runs, that have delivered the same set of messages hold the same log |
| `Reception.ReceptionDecided` | packages/sds/src/message_channel/message_channel.ts:511-552 | A reception processes the message if and only if it is of this channel, from another sender, has a timestamp and is either without content or not received before; otherwise nothing at all changes |
| `Reception.ReceptionOutcome` | packages/sds/src/message_channel/message_channel.ts:583-616 | A processed message whose filter parses: the filter gains exactly the bits of a content id; it is buffered with its time when a dependency is neither logged nor waiting, and otherwise the clock is raised to it and the log pushed unless the id is there |
| `Reception.UnparsedOutcome` | packages/sds/src/message_channel/message_channel.ts:812-879 | When the filter does not parse only acknowledgement by name and repair have happened: nothing is inserted, buffered, delivered or counted |
| `Reception.SweepDecision` | packages/sds/src/message_channel/message_channel.ts:290-365 | A buffered message stays if and only if a dependency is missing and it is not overdue: timeout on, its time recorded and not zero, and more than the timeout passed |
| `Reception.OnlyThisChannel` | packages/sds/src/message_channel/message_channel.ts:512-539 | In every reachable state all that is logged, waiting or processed is of this channel, and what waits or was processed came from others |
| `Reception.TidyRun` | packages/sds/src/message_channel/message_channel.ts:583-586 | In every reachable state the log is strictly sorted by key and the filter has a bit set if and only if some id processed or committed hashes to it |
| `Reception.SendStarted` | packages/sds/src/message_channel/message_channel.ts:647-698 | A started send of a payload not waiting buffers last one message with all of the payload, its id, this channel and sender, the newest history, the filter bytes and the requests newly marked, and awaits the callback on it; a waiting one is reused as it is |
| `Reception.SendResumed` | packages/sds/src/message_channel/message_channel.ts:696-712 | On success the filter gains the bits of the id, the time is recorded and the log pushed, nothing else; on failure nothing changes |
| `Reception.SyncSent` | packages/sds/src/message_channel/message_channel.ts:443-509 | One sync message is added to what was sent if and only if the log is not empty or an unrequested repair request is due with repair on; otherwise none |
| `Reception.BuiltIsOwn` | packages/sds/src/message_channel/message_channel.ts:676-689 | In every reachable state what was built carries this channel and sender, and each content message the content its id is the hash of |
| `Reception.NewestAlwaysNamed` | packages/sds/src/message_channel/message_channel.ts:680-684 | In every run whatever is built while the log is not empty names the greatest message of the log and leaves out only messages smaller than every one it names |
| `Building.ContentIsBuilt` | packages/sds/src/message_channel/message_channel.ts:676-691 | Every field of a new content message, from the state before and the payload |
| `Building.SyncIsBuilt` | packages/sds/src/message_channel/message_channel.ts:469-478 | A sync message is built if and only if there is something in the log to name or a request to make |
| `Building.RecentEntries` | packages/sds/src/message_channel/message_channel.ts:458-462 | A message names exactly the last min(n, length) messages of the log, in log order, with sender and hint, and the whole log for n = 0 |
| `Building.NewestNamed` | packages/sds/src/message_channel/message_channel.ts:680-684 | What is left out of the history sorts before all that is named, and the greatest message is always named |
| `Building.ClockAdvances` | packages/sds/src/message_channel/message_channel.ts:882-889 | The timestamp is the least number above the old clock and not below the time |
| `Building.RequestsTaken` | packages/sds/src/message_channel/repair/buffers.ts:88-119 | The requests taken are exactly those newly marked, at most three, due, earliest first, and none is left when fewer than three are taken; without repair none |
| `Resending.RetryReusesBuffered` | packages/sds/src/message_channel/message_channel.ts:655-672 | A retry of an unacknowledged payload sends the very message buffered; only the clock moves |
| `Resending.SelfDependencyExact` | packages/sds/src/message_channel/message_channel.ts:673-694 | A message that is built names itself if and only if its id is already among the last `causalHistorySize` messages of the log |
| `Resending.AcknowledgedResendNamesItself` | packages/sds/src/message_channel/message_channel.ts:655-694 | The retry guard looks at the outgoing buffer only: after an acknowledgement by any message, a resend names itself if and only if its id is among the last `causalHistorySize` messages of the log as that message left it |
| `Sweeping.SweepReachesFixpoint` | packages/sds/src/message_channel/message_channel.ts:290-365 | One sweep of the incoming buffer (timeout off, room in the log for what settles): what stays is the order-preserving filter of messages with a missing dependency, every content message that goes is in the log, what is returned is what those that stay are missing, and a second sweep changes nothing |
| `Sweeping.AvailabilityConstant` | packages/sds/src/message_channel/message_channel.ts:303-309 | Availability does not change while the fold delivers, although the log grows |
| `Sweeping.AfterSweepAvailable` | packages/sds/src/message_channel/message_channel.ts:290-365 | What a sweep makes unavailable is only sync messages that settled |
| `Sweeping.SecondSweepExact` | packages/sds/src/message_channel/message_channel.ts:290-365 | A second sweep returns what the first did if and only if every available id that a kept message names is in the log, about to be, or on a kept message |
| `Sweeping.SecondSweepReturnsSame` | packages/sds/src/message_channel/message_channel.ts:290-365 | In particular when no buffered message depends on a buffered message that is not a content message |
| `Channel.OutgoingSweepPartitions` | packages/sds/src/message_channel/message_channel.ts:368-394 | The two halves of the outgoing sweep hold every buffered message once, each in the half its acknowledgement state says |
| `Channel.OutgoingSweepOrder` | packages/sds/src/message_channel/message_channel.ts:368-394 | Each half keeps the order of the buffer |
| `Acknowledgements.ReviewKeepsOrder` | packages/sds/src/message_channel/message_channel.ts:812-879 | What the review leaves in the outgoing buffer keeps its order |
| `Channel.MissingEntriesExactly` | packages/sds/src/message_channel/message_channel.ts:303-309 | The missing dependencies are exactly the entries whose ids are not available, and there are none exactly when all ids are |
| `MessageChannel.MessageChannel.constructor` | packages/sds/src/message_channel/message_channel.ts:105-133 | A new channel is in the initial state |
| `MessageChannel.MessageChannel.HasPendingRepairRequests` | packages/sds/src/message_channel/message_channel.ts:143-147 | True exactly when repair is on and some buffered request is due |
| `MessageChannel.MessageChannel.PushOutgoingMessage` | packages/sds/src/message_channel/message_channel.ts:207-224 | An empty payload is refused; any other is queued last and nothing else changes |
| `MessageChannel.MessageChannel.PushIncomingMessage` | packages/sds/src/message_channel/message_channel.ts:271-280 | A received message is queued last and nothing else changes |
| `MessageChannel.MessageChannel.ProcessTasks` | packages/sds/src/message_channel/message_channel.ts:168-177 | The loop empties the queue and leaves the state of all its tasks executed in queue order |
| `MessageChannel.MessageChannel.ExecuteTask` | packages/sds/src/message_channel/message_channel.ts:619-634 | One task, dispatched to the send or receive it stands for |
| `MessageChannel.ExecutedIsStartThenResume` | packages/sds/src/message_channel/message_channel.ts:619-634 | A task executed to its end is a start followed by a resumption with nothing in between |
| `MessageChannel.MessageChannel.ReceiveMessage` | packages/sds/src/message_channel/message_channel.ts:511-617 | The whole new state on reception: ignored, filter unparsable, delivered or buffered |
| `MessageChannel.MessageChannel.SendMessage` | packages/sds/src/message_channel/message_channel.ts:647-694 | The first half of a send: clock, retry or new message, buffer, repair requests taken |
| `MessageChannel.MessageChannel.CommitMessage` | packages/sds/src/message_channel/message_channel.ts:696-712 | The second half, on success: filter, log, reception time |
| `MessageChannel.MessageChannel.PushOutgoingSyncMessage` | packages/sds/src/message_channel/message_channel.ts:443-509 | The sync message that is built, or none when it would say nothing, and the new state |
| `MessageChannel.MessageChannel.IsMessageAvailable` | packages/sds/src/message_channel/message_channel.ts:752-762 | True exactly for ids in the log or the incoming buffer |
| `MessageChannel.MessageChannel.DeliverMessage` | packages/sds/src/message_channel/message_channel.ts:771-807 | Clock raised, log pushed unless the id is present; sync messages refused |
| `MessageChannel.MessageChannel.MissingDependencies` | packages/sds/src/message_channel/message_channel.ts:303-309 | The filter over entries keeps those not available |
| `MessageChannel.MessageChannel.Admit` | packages/sds/src/message_channel/message_channel.ts:588-616 | Buffered with its reception time and its missing dependencies asked for, or delivered |
| `MessageChannel.MessageChannel.ReviewCausalHistory` | packages/sds/src/message_channel/message_channel.ts:821-836 | Removing entry by entry is removing every id named |
| `MessageChannel.MessageChannel.ReviewBloomFilter` | packages/sds/src/message_channel/message_channel.ts:838-878 | The loop over the buffer counts, keeps or drops each message found in the filter |
| `MessageChannel.MessageChannel.PushOutgoingEphemeralMessage` | packages/sds/src/message_channel/message_channel.ts:239-252 | Queued last and nothing else changes |
| `MessageChannel.MessageChannel.ReviewAckStatus` | packages/sds/src/message_channel/message_channel.ts:812-879 | The two-stage loop over history entries and filter leaves the buffer and counts of the one-pass definition |
| `MessageChannel.MessageChannel.SweepIncomingBuffer` | packages/sds/src/message_channel/message_channel.ts:290-365 | The loop computes the fold, timeout branch included |
| `MessageChannel.MessageChannel.SweepOutgoingBuffer` | packages/sds/src/message_channel/message_channel.ts:368-394 | The loop computes the partition by acknowledgement state and changes nothing |
| `MessageChannel.MessageChannel.SweepRepairIncomingBuffer` | packages/sds/src/message_channel/message_channel.ts:402-430 | Due answers leave the repair buffer and are returned |
| `OrderKey.KeyFaithful` | packages/sds/src/message_channel/message.ts:224-230 | For timestamps below 10^16, comparing padded keys character by character is comparing (timestamp, id) pairs |
| `OrderKey.KeyBoundTight` | packages/sds/src/message_channel/message.ts:224-230 | At 10^16 the order breaks, whatever the ids |
| `OrderKey.KeyDeterminesId` | packages/sds/src/message_channel/message.ts:224-230 | Equal keys mean equal ids, at any timestamps |
| `Messages.ClassesExclusive` | packages/sds/src/message_channel/message.ts:125-134 | Content, sync and ephemeral exclude one another and miss exactly the messages with neither timestamp nor content |
| `LocalHistory.LogConvergence` | packages/sds/src/message_channel/mem_local_history.ts:34-56 | Histories pushed the same set of messages, in any order, batching and repetition, hold the same log even under truncation |
| `LocalHistory.LogIsTopOfPushed` | packages/sds/src/message_channel/mem_local_history.ts:34-56 | The log is exactly the maxLength greatest messages ever pushed, strictly sorted by key |
| `LocalHistory.LogIsChronological` | packages/sds/src/message_channel/mem_local_history.ts:34-56 | With timestamps below 10^16 the log is in (timestamp, id) order |
| `LocalHistory.UniqByIdKeepsEarliest` | packages/sds/src/message_channel/mem_local_history.ts:44-47 | Of several entries under one id the one that sorts first survives |
| `LocalHistory.PushOneFits` | packages/sds/src/message_channel/mem_local_history.ts:34-56 | Pushing one new id with room for it adds exactly that message |
| `LocalHistory.PushOneIds` | packages/sds/src/message_channel/mem_local_history.ts:34-56 | A push loses no id if and only if the ids of the log and the newcomer, counted once each, fit |
| `LocalHistory.MemLocalHistory.Push` | packages/sds/src/message_channel/mem_local_history.ts:34-56 | The in-place sort, deduplication and truncation; nothing is stored when a message is not a content message |
| `LocalHistory.MemLocalHistory.ValidateMessages` | packages/sds/src/message_channel/mem_local_history.ts:95-101 | True exactly when every message has a timestamp and content |
| `Bloom.InsertedContains` | packages/sds/src/bloom_filter/bloom.ts:85-110 | After an insertion the item is contained, and so is all that was |
| `Bloom.InsertedExactly` | packages/sds/src/bloom_filter/bloom.ts:85-93 | An insertion sets the item's positions and no other bit |
| `Bloom.BytesRoundTrip` | packages/sds/src/bloom_filter/bloom.ts:112-132 | Words below 2^64 survive big-endian bytes and back |
| `Bloom.SentFilterContains` | packages/sds/src/bloom_filter/bloom.ts:112-132 | What a filter contains, the bytes sent still contain when read |
| `Bloom.ContainsExactly` | packages/sds/src/bloom_filter/bloom.ts:99-110 | An item is contained if and only if each of its hashed positions is a one bit |
| `Bloom.BitPlace` | packages/sds/src/bloom_filter/bloom.ts:85-93 | Position h is the binary digit of weight 2^(h mod 64) of word h / 64 |
| `Bloom.BytePlace` | packages/sds/src/bloom_filter/bloom.ts:112-118 | In the bytes sent, each word stands most significant byte first |
| `Bits.XorBits` | packages/sds/src/message_channel/repair/utils.ts:48-55 | The distance has a one bit exactly where the two hashes differ |
| `Bits.BitIsDigit` | packages/sds/src/bloom_filter/bloom.ts:85-93 | Bit i is the binary digit of weight 2^i |
| `Bits.BigEndianDigit` | packages/sds/src/bloom_filter/bloom.ts:112-118 | Byte k of w is the base-256 digit of weight 256^(w - 1 - k) |
| `Bits.OrTestsBit` | packages/sds/src/bloom_filter/bloom.ts:99-110 | Or-ing a bit in changes nothing exactly when it is set, which is the test lookup makes |
| `Bloom.BloomFilter.constructor` | packages/sds/src/bloom_filter/bloom.ts:37-73 | All words zero |
| `Bloom.BloomFilter.Insert` | packages/sds/src/bloom_filter/bloom.ts:85-93 | The in-place or-ing of words is setting the hashed bits |
| `Bloom.BloomFilter.Lookup` | packages/sds/src/bloom_filter/bloom.ts:99-110 | The early-exit loop answers true exactly when each hashed position is a one bit |
| `Bloom.BloomFilter.ToBytes` | packages/sds/src/bloom_filter/bloom.ts:112-118 | Words written big-endian in order |
| `Bloom.BloomFilter.FromBytes` | packages/sds/src/bloom_filter/bloom.ts:121-132 | The words read back, or the exception on too few bytes |
| `RepairBuffers.EarliestKept` | packages/sds/src/message_channel/repair/buffers.ts:42-72 | After any additions of distinct ids, min(N, all) are held, sorted, with distinct ids, and the first N - 1 are the earliest ever added, ties by arrival |
| `RepairBuffers.EvictionExact` | packages/sds/src/message_channel/repair/buffers.ts:55-68 | The N earliest survive an addition if and only if there was room or the newcomer is due before the slot evicted |
| `RepairBuffers.AddedKeeps` | packages/sds/src/message_channel/repair/buffers.ts:42-72 | An addition keeps sorting, distinctness and size; an id already present keeps its slot and time |
| `RepairBuffers.RemovedExactly` | packages/sds/src/message_channel/repair/buffers.ts:77-82 | Removal takes out exactly the slots of the id |
| `RepairBuffers.ChosenIsFirstEligible` | packages/sds/src/message_channel/repair/buffers.ts:88-119 | What is requested is the first `max` of the naive filter of due, unrequested entries |
| `RepairBuffers.MarkedEffect` | packages/sds/src/message_channel/repair/buffers.ts:88-119 | Exactly those are marked and nothing else changes, so nothing is requested twice in one stay |
| `RepairBuffers.OutgoingRepairBuffer.Add` | packages/sds/src/message_channel/repair/buffers.ts:42-72 | The in-place pop, push and sort is the insertion proved about above |
| `RepairBuffers.OutgoingRepairBuffer.Remove` | packages/sds/src/message_channel/repair/buffers.ts:77-82 | Exactly the slots of other ids stay, in order, and the buffer keeps its invariant |
| `RepairBuffers.OutgoingRepairBuffer.GetEligible` | packages/sds/src/message_channel/repair/buffers.ts:88-119 | Returns the chosen entries and marks them |
| `RepairBuffers.OutgoingRepairBuffer.ScanEligible` | packages/sds/src/message_channel/repair/buffers.ts:88-119 | The scan with two early exits computes what the full filters do on a sorted buffer |
| `RepairBuffers.IncomingRepairBuffer.Add` | packages/sds/src/message_channel/repair/buffers.ts:175-203 | As for requests |
| `RepairBuffers.IncomingRepairBuffer.Remove` | packages/sds/src/message_channel/repair/buffers.ts:208-213 | Exactly the slots of other ids stay, in order, and the buffer keeps its invariant |
| `RepairBuffers.ReadyMembers` | packages/sds/src/message_channel/repair/buffers.ts:218-241 | The naive filters split a buffer by what is due |
| `RepairBuffers.CutoffSplits` | packages/sds/src/message_channel/repair/buffers.ts:218-241 | Cutting a sorted buffer at the first slot not due separates the two filters |
| `RepairBuffers.IncomingRepairBuffer.GetReady` | packages/sds/src/message_channel/repair/buffers.ts:218-241 | Returns and removes exactly the due entries |
| `Repair.RequestDelayInWindow` | packages/sds/src/message_channel/repair/repair.ts:71-76 | A request is delayed by the stated formula, within [tMin, tMax), the last reduction being a no-op for tMax up to 2^53 - 1 |
| `Repair.ResponseDelayInWindow` | packages/sds/src/message_channel/repair/repair.ts:83-93 | An answer is delayed within [0, tMax), and not at all at the author |
| `Repair.ResponseGroupsAreClasses` | packages/sds/src/message_channel/repair/repair.ts:100-120 | For a fixed message, sharing a group is reflexive, symmetric and transitive on non-empty ids, so the author is always in |
| `Repair.RequestsReadyMeansSomeDue` | packages/sds/src/message_channel/repair/repair.ts:312-315 | True exactly when some request is due, requested or not; implied by having something to request |
| `Repair.ReadyWithNothingToRequest` | packages/sds/src/message_channel/repair/repair.ts:312-315 | True with nothing left to request exactly when something is due and all that is due has been requested |
| `Repair.RepairRunInv` | packages/sds/src/message_channel/repair/repair.ts:126-233 | Over every run of the manager both buffers stay sorted, distinct and within size, and every pending answer was asked for when the message was held and this node in its group |
| `Repair.ResponsesJustifiedAndTimely` | packages/sds/src/message_channel/repair/repair.ts:250-268 | Every swept message is in the log, was asked for and is due; every due request still in the log is answered; what stays is not due |
| `RepairAnswers.RepairsWereAskedFor` | packages/sds/src/message_channel/repair/repair.ts:184-268 | In every reachable state of a participant a swept repair is in the log and answers a due request that a processed message of another participant made, in a response group this node is in |
| `RepairAnswers.AllRequestsAnswered` | packages/sds/src/message_channel/repair/repair.ts:184-233 | With room, the ids to be answered are those before together with the requested ids that are logged, name a sender and are in this node's group; each new slot is due at the time plus the response delay of its entry |
| `RepairAnswers.ReceptionAnswers` | packages/sds/src/message_channel/message_channel.ts:564-581 | Processing a message: its own id needs no answer any more, and each answerable request in it is pending at its time |
| `RepairAnswers.RequestIsAnswered` | packages/sds/src/message_channel/repair/repair.ts:184-268 | Over every run: an answerable request processed with room, not evicted, not received again and not swept before its time, is rebroadcast by a sweep at or after its time if the message is still in the log |
| `Repair.RepairManager.MarkDependenciesMissing` | packages/sds/src/message_channel/repair/repair.ts:126-143 | Each missing entry added at its request time |
| `Repair.RepairManager.MarkMessageReceived` | packages/sds/src/message_channel/repair/repair.ts:149-167 | The id leaves both buffers |
| `Repair.RepairManager.GetRepairRequests` | packages/sds/src/message_channel/repair/repair.ts:173-178 | The chosen requests, marked |
| `Repair.RepairManager.ProcessIncomingRepairRequests` | packages/sds/src/message_channel/repair/repair.ts:184-233 | The id leaves the requests; an answer is scheduled exactly when held and in the group |
| `Repair.RepairManager.SweepIncomingBuffer` | packages/sds/src/message_channel/repair/repair.ts:250-268 | Due answers still in the log, in order |
| `Repair.RepairManager.UpdateResponseGroups` | packages/sds/src/message_channel/repair/repair.ts:281-307 | Accepts exactly the whole numbers from zero up; then one group per fixed number of participants, at least one |
| `Repair.ResponseGroupsCount` | packages/sds/src/message_channel/repair/repair.ts:281-307 | One group below 256 participants, and otherwise one for every 128 in full |
| `Repair.AnsweringInOrder` | packages/sds/src/message_channel/repair/repair.ts:250-268 | What is swept comes in the order of the due entries it answers |
| `Repair.RepairManager.HasReady` | packages/sds/src/message_channel/repair/repair.ts:312-315 | Looking at the first slot alone, answers whether any buffered request is due |
| `Wire.RoundTrip` | packages/proto/src/generated/sds_message.ts:107-232 | For any number of entries, decoding an encoding returns the message if and only if its timestamp is below 2^64, and otherwise the message with the timestamp reduced modulo 2^64 |
| `Wire.ClassRoundTrip` | packages/sds/src/message_channel/message.ts:27-94 | The class comes back with the fields; a sync message loses an empty content; a message of no class does not come back |
| `Wire.DecodeAppliesFields` | packages/proto/src/generated/sds_message.ts:161-232 | Decoding well-formed bytes applies their fields in order: the last of a singular field wins, repeated fields accumulate |
| `Wire.UnknownFieldsSkipped` | packages/proto/src/generated/sds_message.ts:221-226 | Fields of unknown number, of any wire type, nested groups included, and anywhere in the message, change nothing |
| `Wire.SkipValueAt` | packages/proto/src/generated/sds_message.ts:68-72 | The reader leaves the cursor just past any value it skips |
| `Wire.EntryFieldsRebuild` | packages/proto/src/generated/sds_message.ts:22-79 | The fields written for a history entry rebuild it |
| `WireLayout.MessageLayout` | packages/proto/src/generated/sds_message.ts:103-160 | The encoding tag byte by tag byte, each string omitted when empty, one part for each entry in list order |
| `WireLayout.EntryLayout` | packages/proto/src/generated/sds_message.ts:22-46 | The encoding of a history entry tag byte by tag byte |
| `WireLayout.VarintDigits` | packages/proto/src/generated/sds_message.ts:127-130 | A varint is the base-128 digits of the number, least significant first, as many as it has, all but the last flagged |
| `WireLayout.VarintReadAs` | packages/proto/src/generated/sds_message.ts:171-173 | On any bytes: reading a varint fails if and only if none of the bytes allowed ends it, and otherwise takes the bytes up to the first that does as base-128 digits, shortest encoding or not |
| `WireCodec.EncodeSdsMessage` | packages/proto/src/generated/sds_message.ts:109-160 | The writer appended to field by field produces the encoding, nested entries length-delimited |
| `WireCodec.DecodeSdsMessage` | packages/proto/src/generated/sds_message.ts:161-232 | The cursor loop computes the decoding on any bytes, failures included |
| `WireCodec.Reader.ReadVarint` | packages/proto/src/generated/sds_message.ts:171-173 | The digit loop reads what the recursive definition does and fails where it does |
| `WireCodec.Reader.ReadEntry` | packages/proto/src/generated/sds_message.ts:47-79 | The nested cursor loop up to the entry's end |
| `WireCodec.Reader.ReadEntryField` | packages/proto/src/generated/sds_message.ts:56-73 | One field of an entry by its number, failures included |
| `WireCodec.Reader.ReadField` | packages/proto/src/generated/sds_message.ts:173-226 | One field of a message by its number, failures included |
| `WireCodec.Reader.SkipType` | packages/proto/src/generated/sds_message.ts:68-72 | Past a value of any wire type, failing on the wire types that do not exist |
| `WireCodec.Writer.Entry` | packages/proto/src/generated/sds_message.ts:24-46 | The nested entry, written apart and length-delimited |
| `WireCodec.WriteEntries` | packages/proto/src/generated/sds_message.ts:134-139 | One nested entry after the other under the same number |
| `Utf8.RoundTrip` | packages/proto/src/generated/sds_message.ts:28-30 | Every string of Unicode scalar values survives UTF-8 |
| `Utf8.DecodedIsEncoded` | packages/proto/src/generated/sds_message.ts:174-186 | And bytes are accepted as a string only if they are its encoding: no overlong form, surrogate or stray byte |
| `ShardCodec.IndexListRoundTrip` | packages/utils/src/common/relay_shard_codec.ts:27-60 | Fewer than 64 shards: odd length, never mistaken for a bit vector, and decoding returns the input if and only if every id is below 2^16 |
| `ShardCodec.BitVectorRoundTrip` | packages/utils/src/common/relay_shard_codec.ts:3-60 | 64 shards or more: decoding returns the strictly increasing list of the same set, hence the input if and only if that was increasing and the cluster id fits |
| `ShardCodec.SetShardsAre` | packages/utils/src/common/relay_shard_codec.ts:16-23 | The scan lists exactly the set bits, once and in order |
| `ShardCodec.IndexListLayout` | packages/utils/src/common/relay_shard_codec.ts:47-60 | The index list byte by byte: cluster, count, two bytes each, high byte first |
| `ShardCodec.BitVectorLayout` | packages/utils/src/common/relay_shard_codec.ts:37-46 | The 130 bytes bit by bit: shard i is the digit of weight 2^(7 - i mod 8) of byte i / 8 after the cluster |
| `ShardCodec.EncodeRelayShard` | packages/utils/src/common/relay_shard_codec.ts:37-60 | Produces the index list or the bit vector; fails if and only if the bit vector is used and some shard is 1024 or more |
| `ShardCodec.DecodeRelayShard` | packages/utils/src/common/relay_shard_codec.ts:3-35 | The loops compute the decoding on any bytes, both errors included |
| `Envelope.RoundTrip` | packages/message-encryption/src/encryption.ts:149-246 | For any padding, signed or not: the payload, the signature made and the key recovered from the hash that was signed come back if and only if the payload is shorter than 2^24 bytes |
| `Envelope.LongPayloadLost` | packages/message-encryption/src/encryption.ts:116-124 | From 2^24 up to 2^32 bytes nothing comes back: the field size 4 falls on the signed flag and outside the size mask |
| `Envelope.PostCipherBound` | packages/message-encryption/src/encryption.ts:226-246 | No bytes whatever make it return a payload of 2^24 bytes or more |
| `Envelope.EnvelopeLength` | packages/message-encryption/src/encryption.ts:186-210 | Below 2^32 bytes the total length is a multiple of 256, signature included |
| `Envelope.EnvelopeLayout` | packages/message-encryption/src/encryption.ts:178-210 | The envelope field by field: size field width in the low flag bits, signed flag, little-endian size, payload, padding, signature |
| `Envelope.PaddingSize` | packages/message-encryption/src/encryption.ts:186-198 | Between 1 and 256 bytes of padding, bringing the raw size to a multiple of 256 |
| `Envelope.SignerRecovered` | packages/message-encryption/src/encryption.ts:158-212 | With a scheme that recovers the signer's key from a signed hash, the key that comes back is the signer's |
| `Envelope.FieldSizeThresholds` | packages/message-encryption/src/encryption.ts:129-136 | The field size is at most 3 exactly below 2^24 and at most 4 exactly below 2^32 |
| `Envelope.ComputeSizeOfPayloadSizeField` | packages/message-encryption/src/encryption.ts:129-136 | The loop over real quotients counts base-256 digits |
| `Envelope.AddPayloadSizeField` | packages/message-encryption/src/encryption.ts:116-124 | Appends the little-endian size and or-s its length into the flags |
| `Envelope.PreCipher` | packages/message-encryption/src/encryption.ts:178-213 | Fails if and only if the padding is invalid, and otherwise assembles the envelope |
| `StoreQuery.QueryPerPage` | packages/core/src/lib/store/store.ts:51-182 | Against any server honouring the parameter contract with pages of at most 100, the pages hold every match beyond the cursor once and in order, forward or backward; the loop ends; failure if and only if the range exceeds a day |
| `StoreQuery.CursorAdvances` | packages/core/src/lib/store/store.ts:164-172 | After a page the next cursor leaves exactly what the page did not return |
| `StoreQuery.BuildQueryParams` | packages/sdk/src/store/store.ts:325-371 | Sub-ranges start where the last ended, none exceeds the limit, all other parameters are kept, and together they cover the whole range when it fits and otherwise all but a last remainder |
| `StoreQuery.QueryGenerator` | packages/sdk/src/store/store.ts:62-91 | No sub-range trips the guard; forward, the pages hold the covered range once and in order; backward, each sub-range's pages hold that sub-range |
| `StoreQuery.SplitExact` | packages/sdk/src/store/store.ts:325-340 | The split query returns what the unsplit one would if and only if the range fits the limit or nothing matches in the remainder, which is never empty and never longer than the limit |
| `StoreQuery.RemainderLost` | packages/sdk/src/store/store.ts:325-340 | A range of a day and a millisecond misses the message of that millisecond |

## Left out

- Timers, events, logging, and the queues of the runtime: only the state changes they trigger are kept. In particular the message-delivered event, which can fire again on a duplicate of a message delivered at once, is not modelled; that the log holds one copy is.
- MessageChannel.MessageChannel.PushIncomingMessage: the retrieval hint given with a message is not stored in it. The original writes hints into shared message objects, so that a hint can appear later in an entry already built; here the hints an entry carries are a value supplied when it is built (`hints`). No branch depends on one.
- MessageChannel.MessageChannel.CommitMessage: for the same reason, the hint the callback returns is not stored in the message.
- MessageChannel.MessageChannel.ProcessTasks: one loop with no other in flight, whose sends are not suspended; interleaved loops and suspended sends are modelled by `Participant.Step`, to which `MessageChannel.ExecutedIsStartThenResume` connects it.
- One action reads the clock once; the original may read it several times within one action.
- The incoming buffer may hold the same message twice; the original's set of missing entries, which compares object identities, is a sequence here.
- A local history given by the user or kept on disk; only the in-memory one is modelled.
- The lost-message timeout is modelled as code (`Channel.TimedOut`), but causal closure and the sweep's fixpoint are about runs with it off, where alone they are promised; they also ask that nothing is truncated (`Untruncated`, `Sweeping.Roomy`: the ids in the log and those the step brings, counted once each, fit), since truncation takes dependencies away.
- `localeCompare` is taken as plain character order, which it is on digits, underscore and lower-case hexadecimal.
- Bloom filter sizing and false-positive rates: the number of hashes and bits are positive parameters.
- A repair buffer of size zero, which throws on the first addition, and a repair window with equal bounds, which divides by zero: `RepairParams.Valid` asks for a size of at least one and tMin below tMax.
- Wire.RoundTrip: for messages whose strings, byte fields and entries are shorter than 2^32 bytes, the reach of a length prefix.
- WireCodec.DecodeSdsMessage: decoding limits passed as options are not modelled, invalid UTF-8 is an error, and strings are Unicode scalar values, so lone surrogates do not arise; the reader and writer primitives come from protons-runtime, which is not part of this model, and are modelled from the encoding specification.
- Sends of ephemeral messages change no protocol state; only their place in the queue is modelled.
- ShardCodec.EncodeRelayShard: ids are natural numbers; negative or fractional ids, which a `DataView` would truncate, are not modelled.
- Envelope: AES and ECIES encryption around the envelope; a message that is a view into a larger buffer, whose flags the original would read from the start of that buffer.
- StoreQuery.QueryPerPage: the store does not change between pages, and a given cursor names a stored message.
- StoreQuery.QueryGenerator: over several sub-ranges a backward query still takes the sub-ranges oldest first, so its pages as a whole are not in one order; what each sub-range yields is stated. Message-hash queries, peer selection, aborts, streams, status codes, decoding of stored messages and the rounding of the conversion to nanoseconds are not modelled.
- Peer management, relay, filter, light push, DNS and ENR handling, RLN, keystores: I/O and bookkeeping around network calls.
