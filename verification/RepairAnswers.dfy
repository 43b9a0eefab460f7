/** A participant answers only what it was asked. */
module RepairAnswers {
  import opened Basics
  import opened Messages
  import opened RepairBuffers
  import Repair
  import opened Channel
  import opened Participant
  import Bits
  import RepairRequests
  import opened Reception

  /** The request behind a pending answer: an entry of a message of another
      participant that was processed, for whose author and id this node is in the
      response group. */
  ghost predicate AskedBy(cfg: Config, groups: nat, s: Slot, r: Message) {
    && s.entry in r.repairRequest && r.senderId != cfg.senderId && s.entry.senderId.Some?
    && Repair.InResponseGroup(cfg.repair.hash, groups, cfg.senderId, s.entry.senderId.value, s.entry.messageId)
  }

  ghost predicate Asked(cfg: Config, groups: nat, s: Slot, reviewed: seq<Message>) {
    exists r :: r in reviewed && AskedBy(cfg, groups, s, r)
  }

  ghost predicate AnswersInv(cfg: Config, groups: nat, c: Core) {
    && c.ch.repair.groups == groups
    && Repair.RepairInv(cfg.repair, c.ch.repair)
    && forall s :: s in c.ch.repair.responses ==> Asked(cfg, groups, s, c.hist.reviewed)
  }

  /** Taking requests leaves the answers alone. */
  lemma TakeAnswers(cfg: Config, groups: nat, c: Core, c': Core, now: nat)
    requires cfg.Valid() && AnswersInv(cfg, groups, c)
    requires c'.ch.repair == TakeRepairRequests(cfg, c.ch.repair, now).0 && c'.hist.reviewed == c.hist.reviewed
    ensures AnswersInv(cfg, groups, c')
  {
    MarkedKeeps(c.ch.repair.requests, now, MAX_REPAIR_REQUESTS_PER_MESSAGE, cfg.repair.bufferSize);
  }

  lemma OnReceiveAnswers(cfg: Config, st: ChannelState, m: Message, now: nat)
    requires cfg.Valid() && Repair.RepairInv(cfg.repair, st.repair) && m.senderId != cfg.senderId
    ensures var quiet := RepairOnReceive(cfg, st, m, now);
            && Repair.RepairInv(cfg.repair, quiet) && quiet.groups == st.repair.groups
            && forall s :: s in quiet.responses && s !in st.repair.responses ==> AskedBy(cfg, st.repair.groups, s, m)
  {
    if cfg.repairEnabled {
      var cleared := Repair.MarkReceived(st.repair, m.messageId);
      Repair.MarkReceivedKeeps(cfg.repair, st.repair, m.messageId);
      Repair.ProcessRequestsKeeps(cfg.repair, cleared, m.repairRequest, st.log, now);
      RemovedExactly(st.repair.responses, m.messageId);
      GroupsKept(cfg, cleared, m.repairRequest, st.log, now);
      var quiet := RepairOnReceive(cfg, st, m, now);
      forall s | s in quiet.responses && s !in st.repair.responses ensures AskedBy(cfg, st.repair.groups, s, m) {
        Repair.ProcessRequestsJustified(cfg.repair, cleared, m.repairRequest, st.log, now, s);
      }
    }
  }

  lemma {:induction false} GroupsKept(
    cfg: Config, rs: Repair.RepairState, requests: seq<HistoryEntry>, log: seq<Message>, now: nat)
    requires cfg.Valid()
    ensures Repair.ProcessRequests(cfg.repair, rs, requests, log, now).groups == rs.groups
  {
    if |requests| > 0 {
      GroupsKept(cfg, rs, requests[..|requests| - 1], log, now);
    }
  }

  lemma ReceiveAnswers(cfg: Config, groups: nat, c: Core, m: Message, now: nat)
    requires Shape(cfg, c.ch) && AnswersInv(cfg, groups, c) && !Ignored(cfg, c.ch, m)
    ensures AnswersInv(cfg, groups, CoreReceive(cfg, c, m, now))
  {
    var c' := CoreReceive(cfg, c, m, now);
    var quiet := RepairOnReceive(cfg, c.ch, m, now);
    ReceivedFields(cfg, c.ch, m, now);
    OnReceiveAnswers(cfg, c.ch, m, now);
    Repair.MarkMissingKeeps(cfg.repair, quiet.requests, MissingEntries(m.causalHistory, Available(c.ch)), now);
    hide Received, RepairOnReceive, Repair.MarkMissing, MissingEntries, Available, ReviewAckStatus, AskedBy;
    assert c'.ch.repair.responses == quiet.responses && c'.ch.repair.groups == groups;
    forall s | s in quiet.responses ensures Asked(cfg, groups, s, c'.hist.reviewed) {
      if s in c.ch.repair.responses {
        var r :| r in c.hist.reviewed && AskedBy(cfg, groups, s, r);
        assert r in c'.hist.reviewed;
      } else {
        assert m in c'.hist.reviewed && AskedBy(cfg, groups, s, m);
      }
    }
  }

  lemma AnswersStep(cfg: Config, groups: nat, c: Core, e: Effect)
    requires Shape(cfg, c.ch) && AnswersInv(cfg, groups, c)
    ensures AnswersInv(cfg, groups, Apply(cfg, c, e))
  {
    var c' := Apply(cfg, c, e);
    match e
    case Create(payload, now, hints) =>
      if c'.ch.repair != c.ch.repair {
        TakeAnswers(cfg, groups, c, c', now);
      }
    case Sync(id, now, hints) => TakeAnswers(cfg, groups, c, c', now);
    case Receive(m, now) => if !Ignored(cfg, c.ch, m) { ReceiveAnswers(cfg, groups, c, m, now); }
    case Sweep(now) => SweepFrame(cfg, c.ch, |c.ch.incoming|, now);
    case AnswerRepairs(now) =>
      Repair.NotReadyKeeps(c.ch.repair.responses, now, cfg.repair.bufferSize);
      ReadyMembers(c.ch.repair.responses, now);
    case _ =>
  }

  lemma {:induction false} AnswersRun(cfg: Config, now: nat, groups: nat, actions: seq<Action>)
    requires cfg.Valid()
    ensures AnswersInv(cfg, groups, Run(cfg, now, groups, actions).core)
  {
    if |actions| > 0 {
      var before, a := Run(cfg, now, groups, actions[..|actions| - 1]), actions[|actions| - 1];
      AnswersRun(cfg, now, groups, actions[..|actions| - 1]);
      StepIsApply(cfg, before, a);
      AnswersStep(cfg, groups, before.core, EffectOf(before, a));
    }
  }

  /** In every reachable state a message swept for rebroadcast is in the log and
      answers a request, now due, that a processed message of another participant
      made, in a response group this node is in. */
  lemma RepairsWereAskedFor(cfg: Config, now: nat, groups: nat, actions: seq<Action>, later: nat, m: Message)
    requires cfg.Valid()
    requires var ch := Run(cfg, now, groups, actions).core.ch; m in Repair.SweepResponses(ch.repair, ch.log, later).1
    ensures var c := Run(cfg, now, groups, actions).core;
            && m in c.ch.log
            && exists s, r :: s in c.ch.repair.responses && s.entry.messageId == m.messageId && s.due <= later &&
                              r in c.hist.reviewed && AskedBy(cfg, groups, s, r)
  {
    var c := Run(cfg, now, groups, actions).core;
    AnswersRun(cfg, now, groups, actions);
    hide Run, AskedBy;
    ReadyMembers(c.ch.repair.responses, later);
    var ready := ReadySlots(c.ch.repair.responses, later);
    Repair.AnsweringMembers(Entries(ready), c.ch.log);
    var e :| e in Entries(ready) && e.messageId == m.messageId;
    var k :| 0 <= k < |ready| && Entries(ready)[k] == e;
    var s := ready[k];
    assert s in c.ch.repair.responses;
    var r :| r in c.hist.reviewed && AskedBy(cfg, groups, s, r);
  }

  // What is asked is answered.

  /** A request this node should answer: it holds the message, and shares the
      response group of the sender named, if there is more than one group. */
  ghost predicate Answerable(cfg: Config, groups: nat, e: HistoryEntry, log: seq<Message>) {
    && (exists m :: m in log && m.messageId == e.messageId)
    && e.senderId.Some? && e.senderId.value != ""
    && (groups <= 1
        || cfg.repair.hash(cfg.senderId + e.messageId) % groups
           == cfg.repair.hash(e.senderId.value + e.messageId) % groups)
  }

  /** When it should answer: the time, and the product of the distance between the
      two participants and the hash of the id, reduced by the window. */
  function AnswerTime(cfg: Config, e: HistoryEntry, now: nat): nat
    requires cfg.Valid() && e.senderId.Some?
  {
    var distance := Bits.Xor(cfg.repair.hash(cfg.senderId), cfg.repair.hash(e.senderId.value));
    now + distance * cfg.repair.hash(e.messageId) % cfg.repair.tMax % 9007199254740991
  }

  ghost function AnswerableIds(cfg: Config, groups: nat, requests: seq<HistoryEntry>, log: seq<Message>)
    : set<MessageId>
  {
    set e | e in requests && Answerable(cfg, groups, e, log) :: e.messageId
  }

  /** The slots added are unmarked, for answerable requests, at their time. */
  ghost predicate NewAnswers(cfg: Config, groups: nat, before: seq<Slot>, after: seq<Slot>, requests: seq<HistoryEntry>,
                             log: seq<Message>, now: nat)
    requires cfg.Valid()
  {
    && (forall s :: s in before ==> s in after)
    && forall s :: s in after && s !in before ==>
         && s.entry in requests && Answerable(cfg, groups, s.entry, log)
         && s.due == AnswerTime(cfg, s.entry, now) && !s.requested
  }

  lemma AnswersIsAnswerable(cfg: Config, groups: nat, e: HistoryEntry, log: seq<Message>)
    requires cfg.Valid()
    ensures Repair.Answers(cfg.repair, groups, e, log) <==> Answerable(cfg, groups, e, log)
    ensures Answerable(cfg, groups, e, log) ==> e.senderId.Some?
  {
  }

  /** One request, with room for it. */
  lemma OneAnswer(cfg: Config, rs: Repair.RepairState, e: HistoryEntry, log: seq<Message>, now: nat)
    requires cfg.Valid() && Repair.RepairInv(cfg.repair, rs) && |rs.responses| < cfg.repair.bufferSize
    ensures var after := Repair.ProcessRequest(cfg.repair, rs, e, log, now);
            && Repair.RepairInv(cfg.repair, after) && after.groups == rs.groups
            && |after.responses| <= |rs.responses| + 1
            && SlotIds(after.responses) ==
               SlotIds(rs.responses) + (if Answerable(cfg, rs.groups, e, log) then {e.messageId} else {})
            && SlotIds(after.requests) == SlotIds(rs.requests) - {e.messageId}
            && NewAnswers(cfg, rs.groups, rs.responses, after.responses, [e], log, now)
  {
    hide BufferInv, SlotIds, Answerable, Repair.Answers, Added;
    Repair.ProcessRequestKeeps(cfg.repair, rs, e, log, now);
    AnswersIsAnswerable(cfg, rs.groups, e, log);
    RepairRequests.RequestDropped(rs.requests, e.messageId);
    if Answerable(cfg, rs.groups, e, log) {
      AnswerTimeIs(cfg, e, now);
      RepairRequests.AddedHere(rs.responses, e, AnswerTime(cfg, e, now), cfg.repair.bufferSize);
      RepairRequests.AddedWithRoom(rs.responses, e, AnswerTime(cfg, e, now), cfg.repair.bufferSize);
    }
  }

  lemma AnswerTimeIs(cfg: Config, e: HistoryEntry, now: nat)
    requires cfg.Valid() && e.senderId.Some?
    ensures Repair.TResp(cfg.repair, e.senderId.value, e.messageId, now) == AnswerTime(cfg, e, now)
  {
  }

  /** With room, the ids to be answered are those before and those of the answerable
      requests, at the time each calls for; and what others ask for, this node no
      longer asks for. */
  lemma {:induction false} AllRequestsAnswered(
    cfg: Config, rs: Repair.RepairState, requests: seq<HistoryEntry>, log: seq<Message>, now: nat)
    requires cfg.Valid() && Repair.RepairInv(cfg.repair, rs)
    requires |rs.responses| + |requests| <= cfg.repair.bufferSize
    ensures var after := Repair.ProcessRequests(cfg.repair, rs, requests, log, now);
            && Repair.RepairInv(cfg.repair, after) && after.groups == rs.groups
            && |after.responses| <= |rs.responses| + |requests|
            && SlotIds(after.responses) == SlotIds(rs.responses) + AnswerableIds(cfg, rs.groups, requests, log)
            && SlotIds(after.requests) == SlotIds(rs.requests) - EntryIds(requests)
            && NewAnswers(cfg, rs.groups, rs.responses, after.responses, requests, log, now)
  {
    hide Repair.RepairInv, SlotIds, Answerable, NewAnswers, Repair.ProcessRequest;
    if |requests| > 0 {
      var q, e := requests[..|requests| - 1], requests[|requests| - 1];
      assert requests == q + [e];
      AllRequestsAnswered(cfg, rs, q, log, now);
      var mid := Repair.ProcessRequests(cfg.repair, rs, q, log, now);
      OneAnswer(cfg, mid, e, log, now);
      assert EntryIds(requests) == EntryIds(q) + {e.messageId};
      MoreAnswerable(cfg, rs.groups, q, e, log);
      var after := Repair.ProcessRequest(cfg.repair, mid, e, log, now);
      NewAnswersChain(cfg, rs.groups, rs.responses, mid.responses, after.responses, q, e, log, now);
    } else {
      NothingNew(cfg, rs.groups, rs.responses, requests, log, now);
    }
  }

  lemma NothingNew(cfg: Config, groups: nat, a: seq<Slot>, requests: seq<HistoryEntry>, log: seq<Message>, now: nat)
    requires cfg.Valid()
    ensures NewAnswers(cfg, groups, a, a, requests, log, now)
  {
  }

  lemma MoreAnswerable(cfg: Config, groups: nat, q: seq<HistoryEntry>, e: HistoryEntry, log: seq<Message>)
    ensures AnswerableIds(cfg, groups, q + [e], log) ==
            AnswerableIds(cfg, groups, q, log) + (if Answerable(cfg, groups, e, log) then {e.messageId} else {})
  {
    hide Answerable;
  }

  lemma NewAnswersChain(
    cfg: Config, groups: nat, a: seq<Slot>, b: seq<Slot>, c: seq<Slot>, q: seq<HistoryEntry>, e: HistoryEntry,
    log: seq<Message>, now: nat)
    requires cfg.Valid()
    requires NewAnswers(cfg, groups, a, b, q, log, now) && NewAnswers(cfg, groups, b, c, [e], log, now)
    ensures NewAnswers(cfg, groups, a, c, q + [e], log, now)
  {
    hide Answerable, AnswerTime;
  }

  /** Processing a message with room for its requests: the message itself need not be
      repaired any more, and each request in it that this node should answer is
      pending at its time. */
  lemma ReceptionAnswers(cfg: Config, c: Core, r: Message, now: nat)
    requires Shape(cfg, c.ch) && Processable(cfg, c.ch, r) && cfg.repairEnabled
    requires Repair.RepairInv(cfg.repair, c.ch.repair)
    requires |c.ch.repair.responses| + |r.repairRequest| <= cfg.repair.bufferSize
    ensures var before, after := c.ch.repair, CoreReceive(cfg, c, r, now).ch.repair;
            var kept := Removed(before.responses, r.messageId);
            && SlotIds(after.responses) ==
               SlotIds(before.responses) - {r.messageId} + AnswerableIds(cfg, before.groups, r.repairRequest, c.ch.log)
            && NewAnswers(cfg, before.groups, kept, after.responses, r.repairRequest, c.ch.log, now)
  {
    var marked := Repair.MarkReceived(c.ch.repair, r.messageId);
    ProcessableNotIgnored(cfg, c.ch, r);
    hide Received, ReviewAckStatus, Repair.MarkMissing, Repair.ProcessRequests, Repair.RepairInv, SlotIds, NewAnswers;
    hide Answerable, Ignored, Processable, Delivered, Available, Parsed, MissingEntries, EntryIds;
    ReceivedFields(cfg, c.ch, r, now);
    Repair.MarkReceivedKeeps(cfg.repair, c.ch.repair, r.messageId);
    RepairRequests.RequestDropped(c.ch.repair.responses, r.messageId);
    RemovedExactly(c.ch.repair.responses, r.messageId);
    AllRequestsAnswered(cfg, marked, r.repairRequest, c.ch.log, now);
  }

  lemma ProcessableNotIgnored(cfg: Config, ch: ChannelState, m: Message)
    ensures Processable(cfg, ch, m) <==> !Ignored(cfg, ch, m)
  {
  }

  /** A step that neither makes the answer, nor makes it moot, nor crowds it out. */
  ghost predicate Undisturbed(cfg: Config, ch: ChannelState, e: Effect, s: Slot) {
    && (e.AnswerRepairs? ==> e.now < s.due)
    && (e.Receive? && Processable(cfg, ch, e.message) ==>
          && e.message.messageId != s.entry.messageId
          && |ch.repair.responses| + |e.message.repairRequest| <= cfg.repair.bufferSize)
  }

  lemma SlotStays(cfg: Config, groups: nat, c: Core, e: Effect, s: Slot)
    requires Shape(cfg, c.ch) && AnswersInv(cfg, groups, c)
    requires s in c.ch.repair.responses && Undisturbed(cfg, c.ch, e, s)
    ensures s in Apply(cfg, c, e).ch.repair.responses
  {
    hide Received, SlotIds, NewAnswers, Repair.RepairInv, Processable, Recent, EntriesFor, Marked, Chosen;
    match e
    case Receive(m, now) =>
      ProcessableNotIgnored(cfg, c.ch, m);
      if !Ignored(cfg, c.ch, m) { SlotStaysOnReceive(cfg, c, m, now, s); }
    case Sweep(now) => SweepFields(cfg, c, now);
    case AnswerRepairs(now) => ReadyMembers(c.ch.repair.responses, now);
    case _ =>
  }

  lemma SlotStaysOnReceive(cfg: Config, c: Core, m: Message, now: nat, s: Slot)
    requires Shape(cfg, c.ch) && Repair.RepairInv(cfg.repair, c.ch.repair) && Processable(cfg, c.ch, m)
    requires s in c.ch.repair.responses && Undisturbed(cfg, c.ch, Effect.Receive(m, now), s)
    ensures s in CoreReceive(cfg, c, m, now).ch.repair.responses
  {
    if cfg.repairEnabled {
      ReceptionAnswers(cfg, c, m, now);
      RemovedExactly(c.ch.repair.responses, m.messageId);
      hide CoreReceive, Processable, SlotIds, Answerable, Repair.RepairInv;
    } else {
      ProcessableNotIgnored(cfg, c.ch, m);
      hide Received, ReviewAckStatus, Processable, Ignored, Repair.RepairInv, Delivered, EntryIds;
      ReceivedFields(cfg, c.ch, m, now);
    }
  }

  ghost predicate UndisturbedRun(
    cfg: Config, now: nat, groups: nat, actions: seq<Action>, more: seq<Action>, s: Slot)
    requires cfg.Valid()
  {
    |more| == 0 ||
    var before := Run(cfg, now, groups, actions + more[..|more| - 1]);
    && UndisturbedRun(cfg, now, groups, actions, more[..|more| - 1], s)
    && Undisturbed(cfg, before.core.ch, EffectOf(before, more[|more| - 1]), s)
  }

  lemma {:induction false} AnswerStays(
    cfg: Config, now: nat, groups: nat, actions: seq<Action>, more: seq<Action>, s: Slot)
    requires cfg.Valid() && s in Run(cfg, now, groups, actions).core.ch.repair.responses
    requires UndisturbedRun(cfg, now, groups, actions, more, s)
    ensures s in Run(cfg, now, groups, actions + more).core.ch.repair.responses
  {
    if |more| == 0 {
      assert actions + more == actions;
    } else {
      var q, a := more[..|more| - 1], more[|more| - 1];
      AnswerStays(cfg, now, groups, actions, q, s);
      assert (actions + more)[..|actions + more| - 1] == actions + q;
      var before := Run(cfg, now, groups, actions + q);
      AnswersRun(cfg, now, groups, actions + q);
      StepIsApply(cfg, before, a);
      hide AnswersInv, Undisturbed, Apply;
      SlotStays(cfg, groups, before.core, EffectOf(before, a), s);
    }
  }

  /** Every request that should be answered is: whatever happens after it was
      processed with room, if no sweep came at or after its time, the message was not
      received again and nothing crowded it out, then a sweep at or after its time
      rebroadcasts the message, provided that the log still holds it. */
  lemma RequestIsAnswered(
    cfg: Config, now: nat, groups: nat, actions: seq<Action>, a: Action, r: Message, e: HistoryEntry, more: seq<Action>,
    later: nat)
    requires cfg.Valid() && cfg.repairEnabled
    requires var p := Run(cfg, now, groups, actions);
      && Starts(p, a) && p.tasks[0] == ReceiveTask(r) && Processable(cfg, p.core.ch, r)
      && |p.core.ch.repair.responses| + |r.repairRequest| <= cfg.repair.bufferSize
      && Answerable(cfg, groups, e, p.core.ch.log) && e.messageId !in SlotIds(p.core.ch.repair.responses)
    requires e in r.repairRequest && forall x :: x in r.repairRequest && x.messageId == e.messageId ==> x == e
    requires UndisturbedRun(cfg, now, groups, actions + [a], more, Slot(e, AnswerTime(cfg, e, a.now), false))
    requires AnswerTime(cfg, e, a.now) <= later
    requires e.messageId in Ids(Run(cfg, now, groups, actions + [a] + more).core.ch.log)
    ensures var ch := Run(cfg, now, groups, actions + [a] + more).core.ch;
            e.messageId in Ids(Repair.SweepResponses(ch.repair, ch.log, later).1)
  {
    var p, s := Run(cfg, now, groups, actions), Slot(e, AnswerTime(cfg, e, a.now), false);
    RequestIsPending(cfg, now, groups, actions, a, r, e);
    AnswerStays(cfg, now, groups, actions + [a], more, s);
    var ch := Run(cfg, now, groups, actions + [a] + more).core.ch;
    hide Run, UndisturbedRun, AnswerTime, Answerable, Processable;
    DueIsSwept(ch, s, later);
  }

  lemma DueIsSwept(ch: ChannelState, s: Slot, later: nat)
    requires s in ch.repair.responses && s.due <= later && s.entry.messageId in Ids(ch.log)
    ensures s.entry.messageId in Ids(Repair.SweepResponses(ch.repair, ch.log, later).1)
  {
    ReadyMembers(ch.repair.responses, later);
    var ready := ReadySlots(ch.repair.responses, later);
    Repair.AnsweringMembers(Entries(ready), ch.log);
    var k :| 0 <= k < |ready| && ready[k] == s;
    assert Entries(ready)[k] in Entries(ready);
  }

  lemma RequestIsPending(
    cfg: Config, now: nat, groups: nat, actions: seq<Action>, a: Action, r: Message, e: HistoryEntry)
    requires cfg.Valid() && cfg.repairEnabled
    requires var p := Run(cfg, now, groups, actions);
      && Starts(p, a) && p.tasks[0] == ReceiveTask(r) && Processable(cfg, p.core.ch, r)
      && |p.core.ch.repair.responses| + |r.repairRequest| <= cfg.repair.bufferSize
      && Answerable(cfg, groups, e, p.core.ch.log) && e.messageId !in SlotIds(p.core.ch.repair.responses)
    requires e in r.repairRequest && forall x :: x in r.repairRequest && x.messageId == e.messageId ==> x == e
    ensures Slot(e, AnswerTime(cfg, e, a.now), false) in Run(cfg, now, groups, actions + [a]).core.ch.repair.responses
  {
    var p := Run(cfg, now, groups, actions);
    assert (actions + [a])[..|actions|] == actions;
    AnswersRun(cfg, now, groups, actions);
    StepIsApply(cfg, p, a);
    ReceptionAnswers(cfg, p.core, r, a.now);
    hide Run, CoreReceive, Processable, Answerable, AnswerTime;
    NewlyPending(cfg, groups, p.core.ch.repair.responses, CoreReceive(cfg, p.core, r, a.now).ch.repair.responses, r, e,
                 p.core.ch.log, a.now);
  }

  lemma NewlyPending(
    cfg: Config, groups: nat, before: seq<Slot>, after: seq<Slot>, r: Message, e: HistoryEntry, log: seq<Message>,
    now: nat)
    requires cfg.Valid() && Answerable(cfg, groups, e, log) && e.messageId !in SlotIds(before)
    requires e in r.repairRequest && forall x :: x in r.repairRequest && x.messageId == e.messageId ==> x == e
    requires AnswerableIds(cfg, groups, r.repairRequest, log) <= SlotIds(after)
    requires NewAnswers(cfg, groups, Removed(before, r.messageId), after, r.repairRequest, log, now)
    ensures Slot(e, AnswerTime(cfg, e, now), false) in after
  {
    RemovedExactly(before, r.messageId);
    hide Answerable, AnswerTime;
    assert e.messageId in SlotIds(after);
    var s :| s in after && s.entry.messageId == e.messageId;
    assert s !in before;
  }
}
