/** The SDS-R repair manager: when to ask for a missing message, and whether and
    when to answer another participant's request. */
module Repair {
  import opened Basics
  import opened Bits
  import opened Messages
  import opened RepairBuffers
  import opened Sorting
  import LocalHistory

  const MAX_SAFE_INTEGER: nat := 9007199254740991
  const PARTICIPANTS_PER_RESPONSE_GROUP: nat := 128

  /** `hash` is the first eight bytes of a SHA-256, as a number. */
  datatype RepairParams = RepairParams(
    participantId: ParticipantId,
    tMin: nat,
    tMax: nat,
    bufferSize: nat,
    hash: string -> nat)
  {
    /** An empty window divides by zero, and a zero-sized buffer throws on the
        first addition. */
    predicate Valid() {
      tMin < tMax && bufferSize >= 1
    }
  }

  datatype RepairState = RepairState(requests: seq<Slot>, responses: seq<Slot>, groups: nat)

  // Timing.

  function CombinedHash(hash: string -> nat, participantId: ParticipantId, messageId: MessageId): nat {
    hash(participantId + messageId)
  }

  function XorDistance(hash: string -> nat, a: ParticipantId, b: ParticipantId): nat {
    Xor(hash(a), hash(b))
  }

  function BigintToNumber(value: nat): nat {
    value % MAX_SAFE_INTEGER
  }

  function TReq(p: RepairParams, messageId: MessageId, now: nat): nat
    requires p.Valid()
  {
    now + (BigintToNumber(CombinedHash(p.hash, p.participantId, messageId) % (p.tMax - p.tMin)) + p.tMin)
  }

  function ResponseDelay(distance: nat, messageHash: nat, tMax: nat): nat
    requires tMax > 0
  {
    (distance * messageHash) % tMax
  }

  function TResp(p: RepairParams, senderId: ParticipantId, messageId: MessageId, now: nat): nat
    requires p.Valid()
  {
    now + BigintToNumber(ResponseDelay(XorDistance(p.hash, p.participantId, senderId), p.hash(messageId), p.tMax))
  }

  /** Requests go out inside the window, at the time the SDS-R formula gives. */
  lemma RequestDelayInWindow(p: RepairParams, messageId: MessageId, now: nat)
    requires p.Valid() && p.tMax <= MAX_SAFE_INTEGER
    ensures p.tMin <= TReq(p, messageId, now) - now < p.tMax
    ensures TReq(p, messageId, now) ==
            now + p.hash(p.participantId + messageId) % (p.tMax - p.tMin) + p.tMin
  {
  }

  /** Answers are delayed by less than the window; the author does not wait. */
  lemma ResponseDelayInWindow(p: RepairParams, senderId: ParticipantId, messageId: MessageId, now: nat)
    requires p.Valid() && p.tMax <= MAX_SAFE_INTEGER
    ensures 0 <= TResp(p, senderId, messageId, now) - now < p.tMax
    ensures TResp(p, senderId, messageId, now) ==
            now + ResponseDelay(XorDistance(p.hash, p.participantId, senderId), p.hash(messageId), p.tMax)
    ensures senderId == p.participantId ==> TResp(p, senderId, messageId, now) == now
  {
    var distance, h := XorDistance(p.hash, p.participantId, senderId), p.hash(messageId);
    ResponseDelayBounds(distance, h, p.tMax);
    if senderId == p.participantId {
      XorSelf(p.hash(p.participantId));
    }
    hide ResponseDelay;
    assert BigintToNumber(ResponseDelay(distance, h, p.tMax)) == ResponseDelay(distance, h, p.tMax);
  }

  lemma ResponseDelayBounds(distance: nat, messageHash: nat, tMax: nat)
    requires tMax > 0
    ensures ResponseDelay(distance, messageHash, tMax) < tMax
    ensures distance == 0 ==> ResponseDelay(distance, messageHash, tMax) == 0
  {
  }

  // Response groups.

  predicate InResponseGroup(hash: string -> nat, groups: nat, participantId: ParticipantId,
                            senderId: ParticipantId, messageId: MessageId)
  {
    if senderId == "" then false
    else if groups <= 1 then true
    else CombinedHash(hash, participantId, messageId) % groups == CombinedHash(hash, senderId, messageId) % groups
  }

  /** For a fixed message, sharing a group is an equivalence between non-empty
      participant ids: the author is in, and the roles can be exchanged. */
  lemma ResponseGroupsAreClasses(hash: string -> nat, groups: nat, a: ParticipantId, b: ParticipantId,
                                 c: ParticipantId, messageId: MessageId)
    ensures InResponseGroup(hash, groups, a, a, messageId) <==> a != ""
    ensures a != "" && b != "" ==>
              (InResponseGroup(hash, groups, a, b, messageId) <==> InResponseGroup(hash, groups, b, a, messageId))
    ensures InResponseGroup(hash, groups, a, b, messageId) && InResponseGroup(hash, groups, b, c, messageId) ==>
              InResponseGroup(hash, groups, a, c, messageId)
  {
  }

  /** A JavaScript number: a real value, or one of the others. */
  datatype Number = Finite(value: real) | Infinite(positive: bool) | NaN

  predicate IsWhole(x: real) {
    x.Floor as real == x
  }

  function ResponseGroups(numParticipants: nat): nat {
    Max(1, Min(numParticipants, MAX_SAFE_INTEGER) / PARTICIPANTS_PER_RESPONSE_GROUP)
  }

  /** One group for every 128 participants, and one at least. */
  lemma ResponseGroupsCount(numParticipants: nat)
    ensures var g, n := ResponseGroups(numParticipants), Min(numParticipants, 9007199254740991);
            if n < 256 then g == 1 else 128 * g <= n < 128 * (g + 1)
  {
  }

  // What each operation does to the buffers.

  function MarkMissing(p: RepairParams, items: seq<Slot>, missing: seq<HistoryEntry>, now: nat): seq<Slot>
    requires p.Valid()
  {
    if |missing| == 0 then items
    else
      var e := missing[|missing| - 1];
      Added(MarkMissing(p, items, missing[..|missing| - 1], now), e, TReq(p, e.messageId, now), p.bufferSize)
  }

  function MarkReceived(rs: RepairState, id: MessageId): RepairState {
    rs.(requests := Removed(rs.requests, id), responses := Removed(rs.responses, id))
  }

  /** Can and should this node answer the request? */
  predicate Answers(p: RepairParams, groups: nat, request: HistoryEntry, log: seq<Message>) {
    && request.messageId in Ids(log)
    && request.senderId.Some?
    && InResponseGroup(p.hash, groups, p.participantId, request.senderId.value, request.messageId)
  }

  /** Someone else asks: stop asking ourselves, and queue an answer if it is for
      us to give. */
  function ProcessRequest(p: RepairParams, rs: RepairState, request: HistoryEntry, log: seq<Message>, now: nat)
    : RepairState
    requires p.Valid()
  {
    var quiet := rs.(requests := Removed(rs.requests, request.messageId));
    if Answers(p, rs.groups, request, log) then
      var due := TResp(p, request.senderId.value, request.messageId, now);
      quiet.(responses := Added(rs.responses, request, due, p.bufferSize))
    else quiet
  }

  function ProcessRequests(p: RepairParams, rs: RepairState, requests: seq<HistoryEntry>, log: seq<Message>, now: nat)
    : RepairState
    requires p.Valid()
  {
    if |requests| == 0 then rs
    else ProcessRequest(p, ProcessRequests(p, rs, requests[..|requests| - 1], log, now), requests[|requests| - 1],
        log, now)
  }

  /** The messages that answer the given entries, those still in the log. */
  function Answering(ready: seq<HistoryEntry>, log: seq<Message>): seq<Message> {
    if |ready| == 0 then []
    else
      var r := Find(log, ready[|ready| - 1].messageId);
      Answering(ready[..|ready| - 1], log) + (if r.Some? then [r.value] else [])
  }

  function SweepResponses(rs: RepairState, log: seq<Message>, now: nat): (RepairState, seq<Message>) {
    (rs.(responses := NotReadySlots(rs.responses, now)), Answering(Entries(ReadySlots(rs.responses, now)), log))
  }

  function TakeRequests(rs: RepairState, now: nat, max: nat): (RepairState, seq<HistoryEntry>) {
    (rs.(requests := Marked(rs.requests, now, max)), Chosen(rs.requests, now, max))
  }

  predicate HasRequestsReady(requests: seq<Slot>, now: nat) {
    |requests| > 0 && requests[0].due <= now
  }

  /** Looking at the first slot alone tells whether any is due; being due includes
      having been requested already, so it is implied by, and weaker than, having
      something to send. */
  lemma RequestsReadyMeansSomeDue(requests: seq<Slot>, now: nat, max: nat)
    requires Sorted(requests, DueLeq)
    ensures HasRequestsReady(requests, now) <==> exists s :: s in requests && s.due <= now
    ensures Chosen(requests, now, max) != [] ==> HasRequestsReady(requests, now)
  {
    if !HasRequestsReady(requests, now) {
      forall s | s in requests ensures s.due > now {
        var k :| 0 <= k < |requests| && requests[k] == s;
        assert k == 0 || DueLeq(requests[0], s);
      }
      NothingDue(requests, now, max);
    }
  }

  /** It says nothing about requests left to make: true with none left exactly when
      something is due and all that is due has been requested already. */
  lemma ReadyWithNothingToRequest(requests: seq<Slot>, now: nat, max: nat)
    requires Sorted(requests, DueLeq) && max > 0
    ensures HasRequestsReady(requests, now) && Chosen(requests, now, max) == []
            <==> (exists s :: s in requests && s.due <= now) &&
                 forall s :: s in requests && s.due <= now ==> s.requested
  {
    RequestsReadyMeansSomeDue(requests, now, max);
    NothingChosen(requests, now, max);
  }

  lemma {:induction false} NothingChosen(items: seq<Slot>, now: nat, max: nat)
    requires max > 0
    ensures Chosen(items, now, max) == [] <==> forall s :: s in items && s.due <= now ==> s.requested
  {
    if |items| > 0 {
      NothingChosen(items[1..], now, max);
      assert items == [items[0]] + items[1..];
    }
  }

  // Invariants.

  ghost predicate RepairInv(p: RepairParams, rs: RepairState) {
    BufferInv(rs.requests, p.bufferSize) && BufferInv(rs.responses, p.bufferSize)
  }

  lemma {:induction false} MarkMissingKeeps(p: RepairParams, items: seq<Slot>, missing: seq<HistoryEntry>, now: nat)
    requires p.Valid() && BufferInv(items, p.bufferSize)
    ensures BufferInv(MarkMissing(p, items, missing, now), p.bufferSize)
    ensures SlotIds(MarkMissing(p, items, missing, now)) <= SlotIds(items) + EntryIds(missing)
  {
    if |missing| > 0 {
      var q, e := missing[..|missing| - 1], missing[|missing| - 1];
      MarkMissingKeeps(p, items, q, now);
      var before := MarkMissing(p, items, q, now);
      AddedKeeps(before, e, TReq(p, e.messageId, now), p.bufferSize);
      var after := MarkMissing(p, items, missing, now);
      assert missing == q + [e];
      forall s | s in after ensures s.entry.messageId in SlotIds(items) + EntryIds(missing) {
        assert s in Elems(after);
        if s in before { assert s.entry.messageId in SlotIds(before); }
      }
    }
  }

  lemma MarkReceivedKeeps(p: RepairParams, rs: RepairState, id: MessageId)
    requires RepairInv(p, rs)
    ensures RepairInv(p, MarkReceived(rs, id))
    ensures SlotIds(MarkReceived(rs, id).requests) == SlotIds(rs.requests) - {id}
    ensures Elems(MarkReceived(rs, id).responses) <= Elems(rs.responses)
  {
    RemovedKeeps(rs.requests, id, p.bufferSize);
    RemovedKeeps(rs.responses, id, p.bufferSize);
    RemovedExactly(rs.requests, id);
    RemovedExactly(rs.responses, id);
  }

  lemma ProcessRequestKeeps(p: RepairParams, rs: RepairState, request: HistoryEntry, log: seq<Message>, now: nat)
    requires p.Valid() && RepairInv(p, rs)
    ensures var after := ProcessRequest(p, rs, request, log, now);
            && RepairInv(p, after) && after.groups == rs.groups
            && SlotIds(after.requests) == SlotIds(rs.requests) - {request.messageId}
  {
    RemovedKeeps(rs.requests, request.messageId, p.bufferSize);
    RemovedExactly(rs.requests, request.messageId);
    if Answers(p, rs.groups, request, log) {
      AddedKeeps(rs.responses, request, TResp(p, request.senderId.value, request.messageId, now), p.bufferSize);
    }
  }

  /** Every id another participant asks for leaves our own requests, and nothing
      else does. */
  lemma {:induction false} ProcessRequestsKeeps(p: RepairParams, rs: RepairState, requests: seq<HistoryEntry>,
      log: seq<Message>, now: nat)
    requires p.Valid() && RepairInv(p, rs)
    ensures var after := ProcessRequests(p, rs, requests, log, now);
            && RepairInv(p, after) && after.groups == rs.groups
            && SlotIds(after.requests) == SlotIds(rs.requests) - EntryIds(requests)
  {
    if |requests| > 0 {
      var q, e := requests[..|requests| - 1], requests[|requests| - 1];
      ProcessRequestsKeeps(p, rs, q, log, now);
      ProcessRequestKeeps(p, ProcessRequests(p, rs, q, log, now), e, log, now);
      assert requests == q + [e];
      assert EntryIds(requests) == EntryIds(q) + {e.messageId};
    }
  }

  lemma NotReadyKeeps(items: seq<Slot>, now: nat, maxSize: nat)
    requires BufferInv(items, maxSize)
    ensures BufferInv(NotReadySlots(items, now), maxSize)
  {
    var cutoff := Cutoff(items, now);
    CutoffSplits(items, now, cutoff);
  }

  lemma {:induction false} CutoffExists(items: seq<Slot>, now: nat)
    requires Sorted(items, DueLeq)
    ensures exists k: nat :: k <= |items| && IsCutoff(items, now, k)
  {
    if |items| == 0 {
      assert IsCutoff(items, now, 0);
    } else {
      var p := items[..|items| - 1];
      CutoffExists(p, now);
      var k: nat :| k <= |p| && IsCutoff(p, now, k);
      if items[|items| - 1].due <= now {
        forall i | 0 <= i < |items| - 1 ensures items[i].due <= now {
          assert DueLeq(items[i], items[|items| - 1]);
        }
        assert IsCutoff(items, now, |items|);
      } else {
        assert forall i :: 0 <= i < |p| ==> items[i] == p[i];
        assert IsCutoff(items, now, k);
      }
    }
  }

  ghost predicate IsCutoff(items: seq<Slot>, now: nat, k: nat)
    requires k <= |items|
  {
    (forall i :: 0 <= i < k ==> items[i].due <= now) && (forall i :: k <= i < |items| ==> items[i].due > now)
  }

  ghost function Cutoff(items: seq<Slot>, now: nat): (k: nat)
    requires Sorted(items, DueLeq)
    ensures k <= |items| && IsCutoff(items, now, k)
  {
    CutoffExists(items, now);
    var k: nat :| k <= |items| && IsCutoff(items, now, k);
    k
  }

  lemma {:induction false} AnsweringMembers(ready: seq<HistoryEntry>, log: seq<Message>)
    ensures forall m :: m in Answering(ready, log) ==> m in log && m.messageId in EntryIds(ready)
    ensures forall e :: e in ready && e.messageId in Ids(log) ==> e.messageId in Ids(Answering(ready, log))
  {
    if |ready| > 0 {
      var q, e := ready[..|ready| - 1], ready[|ready| - 1];
      assert ready == q + [e];
      AnsweringMembers(q, log);
      var r := Find(log, e.messageId);
      if r.Some? { IdsAppend(Answering(q, log), [r.value]); assert r.value in [r.value]; }
    }
  }

  function EntryIdList(es: seq<HistoryEntry>): seq<MessageId> {
    if |es| == 0 then [] else EntryIdList(es[..|es| - 1]) + [es[|es| - 1].messageId]
  }

  function IdList(ms: seq<Message>): seq<MessageId> {
    if |ms| == 0 then [] else IdList(ms[..|ms| - 1]) + [ms[|ms| - 1].messageId]
  }

  /** Answers go out in the order they fell due. */
  lemma {:induction false} AnsweringInOrder(ready: seq<HistoryEntry>, log: seq<Message>)
    ensures Subsequence(IdList(Answering(ready, log)), EntryIdList(ready))
  {
    if |ready| > 0 {
      var q, e := ready[..|ready| - 1], ready[|ready| - 1];
      AnsweringInOrder(q, log);
      SubsequenceSnoc(IdList(Answering(q, log)), EntryIdList(q), e.messageId);
      var r := Find(log, e.messageId);
      if r.Some? {
        var a := Answering(q, log);
        assert (a + [r.value])[..|a|] == a;
      } else {
        assert Answering(q, log) + [] == Answering(q, log);
      }
    }
  }

  // Over every run: each answer was asked for.

  /** A repair request as it was processed: when, under how many groups, and
      whether the message was in the log. */
  datatype Ask = Ask(request: HistoryEntry, at: nat, groups: nat, held: bool)

  datatype RepairStep =
    | MissingStep(missing: seq<HistoryEntry>, now: nat)
    | ReceivedStep(id: MessageId)
    | RequestedStep(requests: seq<HistoryEntry>, log: seq<Message>, now: nat)
    | TakeStep(now: nat, max: nat)
    | SweepStep(log: seq<Message>, now: nat)
    | RegroupStep(numParticipants: nat)

  function RepairApply(p: RepairParams, rs: RepairState, step: RepairStep): RepairState
    requires p.Valid()
  {
    match step
    case MissingStep(missing, now) => rs.(requests := MarkMissing(p, rs.requests, missing, now))
    case ReceivedStep(id) => MarkReceived(rs, id)
    case RequestedStep(requests, log, now) => ProcessRequests(p, rs, requests, log, now)
    case TakeStep(now, max) => TakeRequests(rs, now, max).0
    case SweepStep(log, now) => SweepResponses(rs, log, now).0
    case RegroupStep(n) => rs.(groups := ResponseGroups(n))
  }

  function RepairRun(p: RepairParams, groups: nat, steps: seq<RepairStep>): RepairState
    requires p.Valid()
  {
    if |steps| == 0 then RepairState([], [], groups)
    else RepairApply(p, RepairRun(p, groups, steps[..|steps| - 1]), steps[|steps| - 1])
  }

  ghost function Asks(p: RepairParams, groups: nat, steps: seq<RepairStep>): set<Ask>
    requires p.Valid()
  {
    if |steps| == 0 then {}
    else
      var last := steps[|steps| - 1];
      Asks(p, groups, steps[..|steps| - 1]) +
      if last.RequestedStep? then
        set r | r in last.requests ::
          Ask(r, last.now, RepairRun(p, groups, steps[..|steps| - 1]).groups, r.messageId in Ids(last.log))
      else {}
  }

  /** A queued answer is for a request that was received, for a message then held,
      by a member of its response group, and is due when the formula says. */
  ghost predicate JustifiedBy(p: RepairParams, s: Slot, a: Ask)
    requires p.Valid()
  {
    && a.request == s.entry && a.held && s.entry.senderId.Some?
    && InResponseGroup(p.hash, a.groups, p.participantId, s.entry.senderId.value, s.entry.messageId)
    && s.due == TResp(p, s.entry.senderId.value, s.entry.messageId, a.at)
  }

  ghost predicate AllJustified(p: RepairParams, responses: seq<Slot>, asks: set<Ask>)
    requires p.Valid()
  {
    forall s :: s in responses ==> exists a :: a in asks && JustifiedBy(p, s, a)
  }

  lemma JustifiedSubset(p: RepairParams, old_: seq<Slot>, new_: seq<Slot>, asks: set<Ask>, more: set<Ask>)
    requires p.Valid() && AllJustified(p, old_, asks)
    requires forall s :: s in new_ && s !in old_ ==> exists a :: a in more && JustifiedBy(p, s, a)
    ensures AllJustified(p, new_, asks + more)
  {
    forall s | s in new_ ensures exists a :: a in asks + more && JustifiedBy(p, s, a) {
      if s in old_ {
        var a :| a in asks && JustifiedBy(p, s, a);
        assert a in asks + more;
      } else {
        var a :| a in more && JustifiedBy(p, s, a);
        assert a in asks + more;
      }
    }
  }

  lemma {:induction false} ProcessRequestsJustified(p: RepairParams, rs: RepairState, requests: seq<HistoryEntry>,
      log: seq<Message>, now: nat, s: Slot)
    requires p.Valid() && RepairInv(p, rs)
    requires s in ProcessRequests(p, rs, requests, log, now).responses && s !in rs.responses
    ensures s.entry in requests && JustifiedBy(p, s, Ask(s.entry, now, rs.groups, s.entry.messageId in Ids(log)))
  {
    var q, e := requests[..|requests| - 1], requests[|requests| - 1];
    ProcessRequestsKeeps(p, rs, q, log, now);
    var before := ProcessRequests(p, rs, q, log, now);
    if s in before.responses {
      ProcessRequestsJustified(p, rs, q, log, now, s);
    } else {
      AddedKeeps(before.responses, e, TResp(p, e.senderId.value, e.messageId, now), p.bufferSize);
      var after := ProcessRequest(p, before, e, log, now);
      assert s in Elems(after.responses);
    }
  }

  lemma {:induction false} RepairRunInv(p: RepairParams, groups: nat, steps: seq<RepairStep>)
    requires p.Valid()
    ensures RepairInv(p, RepairRun(p, groups, steps))
    ensures AllJustified(p, RepairRun(p, groups, steps).responses, Asks(p, groups, steps))
  {
    if |steps| > 0 {
      var q, step := steps[..|steps| - 1], steps[|steps| - 1];
      RepairRunInv(p, groups, q);
      RepairStepInv(p, RepairRun(p, groups, q), step);
      var before, after := RepairRun(p, groups, q), RepairRun(p, groups, steps);
      var more := Asks(p, groups, steps);
      forall s | s in after.responses && s !in before.responses
        ensures exists a :: a in more && JustifiedBy(p, s, a)
      {
        RepairStepNew(p, before, step, s);
        var a := Ask(s.entry, step.now, before.groups, s.entry.messageId in Ids(step.log));
        assert a in more;
      }
      JustifiedSubset(p, before.responses, after.responses, Asks(p, groups, q), more);
      assert Asks(p, groups, q) + more == more;
    }
  }

  lemma RepairStepInv(p: RepairParams, rs: RepairState, step: RepairStep)
    requires p.Valid() && RepairInv(p, rs)
    ensures RepairInv(p, RepairApply(p, rs, step))
  {
    match step
    case MissingStep(missing, now) => MarkMissingKeeps(p, rs.requests, missing, now);
    case ReceivedStep(id) => MarkReceivedKeeps(p, rs, id);
    case RequestedStep(requests, log, now) => ProcessRequestsKeeps(p, rs, requests, log, now);
    case TakeStep(now, max) => MarkedKeeps(rs.requests, now, max, p.bufferSize);
    case SweepStep(log, now) => NotReadyKeeps(rs.responses, now, p.bufferSize);
    case RegroupStep(n) =>
  }

  lemma RepairStepNew(p: RepairParams, rs: RepairState, step: RepairStep, s: Slot)
    requires p.Valid() && RepairInv(p, rs)
    requires s in RepairApply(p, rs, step).responses && s !in rs.responses
    ensures step.RequestedStep? && s.entry in step.requests
    ensures JustifiedBy(p, s, Ask(s.entry, step.now, rs.groups, s.entry.messageId in Ids(step.log)))
  {
    match step
    case ReceivedStep(id) => RemovedExactly(rs.responses, id);
    case RequestedStep(requests, log, now) => ProcessRequestsJustified(p, rs, requests, log, now, s);
    case SweepStep(log, now) => ReadyMembers(rs.responses, now);
    case _ =>
  }

  /** Over every run: a message swept for rebroadcast is in the log, somebody
      asked for it when it was already held, this node was in its response group,
      and the answer is due. Every due request still in the log is answered. */
  lemma ResponsesJustifiedAndTimely(p: RepairParams, groups: nat, steps: seq<RepairStep>, log: seq<Message>, now: nat)
    requires p.Valid()
    ensures var rs := RepairRun(p, groups, steps);
            && (forall m :: m in SweepResponses(rs, log, now).1 ==>
                  m in log && exists s, a :: s in rs.responses && s.due <= now && s.entry.messageId == m.messageId &&
                                             a in Asks(p, groups, steps) && JustifiedBy(p, s, a))
            && (forall s :: s in rs.responses && s.due <= now && s.entry.messageId in Ids(log) ==>
                  s.entry.messageId in Ids(SweepResponses(rs, log, now).1))
            && (forall s :: s in SweepResponses(rs, log, now).0.responses ==> s in rs.responses && s.due > now)
  {
    var rs := RepairRun(p, groups, steps);
    RepairRunInv(p, groups, steps);
    ReadyMembers(rs.responses, now);
    var ready := ReadySlots(rs.responses, now);
    AnsweringMembers(Entries(ready), log);
    forall m | m in SweepResponses(rs, log, now).1
      ensures exists s, a :: s in rs.responses && s.due <= now && s.entry.messageId == m.messageId &&
                             a in Asks(p, groups, steps) && JustifiedBy(p, s, a)
    {
      var e :| e in Entries(ready) && e.messageId == m.messageId;
      var k :| 0 <= k < |ready| && Entries(ready)[k] == e;
      var s := ready[k];
      assert s in rs.responses;
      var a :| a in Asks(p, groups, steps) && JustifiedBy(p, s, a);
    }
    forall s | s in rs.responses && s.due <= now && s.entry.messageId in Ids(log)
      ensures s.entry.messageId in Ids(SweepResponses(rs, log, now).1)
    {
      var k :| 0 <= k < |ready| && ready[k] == s;
      assert Entries(ready)[k] in Entries(ready);
    }
  }

  class RepairManager {
    const params: RepairParams
    var numResponseGroups: nat
    const outgoingBuffer: OutgoingRepairBuffer
    const incomingBuffer: IncomingRepairBuffer

    ghost predicate Valid()
      reads this, outgoingBuffer, incomingBuffer
    {
      && params.Valid()
      && outgoingBuffer.Valid() && outgoingBuffer.maxSize == params.bufferSize
      && incomingBuffer.Valid() && incomingBuffer.maxSize == params.bufferSize
    }

    ghost function State(): RepairState
      reads this, outgoingBuffer, incomingBuffer
    {
      RepairState(outgoingBuffer.items, incomingBuffer.items, numResponseGroups)
    }

    constructor (params: RepairParams, numResponseGroups: nat)
      requires params.Valid()
      ensures Valid() && fresh(outgoingBuffer) && fresh(incomingBuffer)
      ensures this.params == params && State() == RepairState([], [], numResponseGroups)
    {
      this.params := params;
      this.numResponseGroups := numResponseGroups;
      outgoingBuffer := new OutgoingRepairBuffer(params.bufferSize);
      incomingBuffer := new IncomingRepairBuffer(params.bufferSize);
    }

    method MarkDependenciesMissing(missing: seq<HistoryEntry>, now: nat)
      requires Valid()
      modifies outgoingBuffer
      ensures Valid() && State() == old(State()).(requests := MarkMissing(params, old(State()).requests, missing, now))
    {
      for i := 0 to |missing|
        invariant Valid()
        invariant outgoingBuffer.items == MarkMissing(params, old(outgoingBuffer.items), missing[..i], now)
      {
        assert missing[..i + 1][..i] == missing[..i];
        var tReq := TReq(params, missing[i].messageId, now);
        var wasAdded := outgoingBuffer.Add(missing[i], tReq);
      }
      assert missing[..|missing|] == missing;
    }

    method MarkMessageReceived(messageId: MessageId)
      requires Valid()
      modifies outgoingBuffer, incomingBuffer
      ensures Valid() && State() == MarkReceived(old(State()), messageId)
    {
      var wasInOutgoing := outgoingBuffer.Has(messageId);
      var wasInIncoming := incomingBuffer.Has(messageId);
      if wasInOutgoing {
        outgoingBuffer.Remove(messageId);
      } else {
        RemovedAbsent(outgoingBuffer.items, messageId);
      }
      if wasInIncoming {
        incomingBuffer.Remove(messageId);
      } else {
        RemovedAbsent(incomingBuffer.items, messageId);
      }
    }

    method GetRepairRequests(maxRequests: nat, now: nat) returns (eligible: seq<HistoryEntry>)
      requires Valid()
      modifies outgoingBuffer
      ensures Valid() && (State(), eligible) == TakeRequests(old(State()), now, maxRequests)
    {
      eligible := outgoingBuffer.GetEligible(now, maxRequests);
    }

    method ProcessIncomingRepairRequests(requests: seq<HistoryEntry>, history: LocalHistory.MemLocalHistory, now: nat)
      requires Valid()
      modifies outgoingBuffer, incomingBuffer
      ensures Valid() && State() == ProcessRequests(params, old(State()), requests, history.items, now)
    {
      for i := 0 to |requests|
        invariant Valid()
        invariant State() == ProcessRequests(params, old(State()), requests[..i], history.items, now)
      {
        assert requests[..i + 1][..i] == requests[..i];
        var request := requests[i];
        outgoingBuffer.Remove(request.messageId);
        var message := Find(history.items, request.messageId);
        if message.None? || request.senderId.None? || request.senderId.value == "" {
          continue;
        }
        var inGroup := InResponseGroup(params.hash, numResponseGroups, params.participantId, request.senderId.value,
                                       request.messageId);
        if !inGroup {
          continue;
        }
        var tResp := TResp(params, request.senderId.value, request.messageId, now);
        var wasAdded := incomingBuffer.Add(request, tResp);
      }
      assert requests[..|requests|] == requests;
    }

    method SweepIncomingBuffer(history: LocalHistory.MemLocalHistory, now: nat) returns (messages: seq<Message>)
      requires Valid()
      modifies incomingBuffer
      ensures Valid() && (State(), messages) == SweepResponses(old(State()), history.items, now)
    {
      hide ReadySlots, NotReadySlots, Entries;
      var ready := incomingBuffer.GetReady(now);
      messages := [];
      for i := 0 to |ready|
        invariant Valid() && unchanged(outgoingBuffer) && unchanged(this)
        invariant messages == Answering(ready[..i], history.items)
      {
        assert ready[..i + 1][..i] == ready[..i];
        var message := Find(history.items, ready[i].messageId);
        if message.Some? {
          messages := messages + [message.value];
        }
      }
      assert ready[..|ready|] == ready;
    }

    /** Anything but a whole number from zero up is refused. */
    method UpdateResponseGroups(numParticipants: Number) returns (r: Result<nat>)
      requires Valid()
      modifies this
      ensures Valid()
      ensures r.Success? <==> numParticipants.Finite? && IsWhole(numParticipants.value) && numParticipants.value >= 0.0
      ensures r.Failure? ==> State() == old(State())
      ensures r.Success? ==>
                && State() == old(State()).(groups := ResponseGroups(numParticipants.value.Floor))
                && r.value == numResponseGroups
    {
      if !numParticipants.Finite? || numParticipants.value < 0.0 || !IsWhole(numParticipants.value) {
        return Failure("Invalid numParticipants. Must be a positive integer.");
      }
      var whole := numParticipants.value.Floor;
      var n := if whole > MAX_SAFE_INTEGER then MAX_SAFE_INTEGER else whole;
      numResponseGroups := Max(1, n / PARTICIPANTS_PER_RESPONSE_GROUP);
      r := Success(numResponseGroups);
    }

    method HasReady(now: nat) returns (ready: bool)
      requires Valid()
      ensures ready <==> exists s :: s in outgoingBuffer.items && s.due <= now
    {
      var items := outgoingBuffer.items;
      ready := |items| > 0 && items[0].due <= now;
      RequestsReadyMeansSomeDue(items, now, 0);
    }
  }
}
