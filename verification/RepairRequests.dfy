/** The repair layer never asks for what the node has. */
module RepairRequests {
  import opened Basics
  import opened Messages
  import opened LocalHistory
  import opened Sorting
  import opened RepairBuffers
  import Repair
  import opened Channel
  import opened Participant

  ghost predicate NotAskedFor(cfg: Config, requests: seq<Slot>, m: Message) {
    m.senderId == cfg.senderId || m.messageId !in SlotIds(requests)
  }

  ghost predicate AsksInv(cfg: Config, c: Core) {
    && Repair.RepairInv(cfg.repair, c.ch.repair)
    && (forall m :: m in c.ch.log ==> NotAskedFor(cfg, c.ch.repair.requests, m))
    && (forall m :: m in c.ch.incoming ==> NotAskedFor(cfg, c.ch.repair.requests, m))
    && (forall s :: s in c.hist.sent ==> s.message.senderId == cfg.senderId)
  }

  lemma TakeKeeps(cfg: Config, c: Core, c': Core, now: nat)
    requires cfg.Valid() && AsksInv(cfg, c)
    requires c'.ch.repair == TakeRepairRequests(cfg, c.ch.repair, now).0
    requires c'.ch.log == c.ch.log && c'.ch.incoming == c.ch.incoming
    requires forall s :: s in c'.hist.sent ==> s.message.senderId == cfg.senderId
    ensures AsksInv(cfg, c')
  {
    MarkedKeeps(c.ch.repair.requests, now, MAX_REPAIR_REQUESTS_PER_MESSAGE, cfg.repair.bufferSize);
  }

  /** What the repair layer does on reception only ever takes requests away, the
      received id among them. */
  lemma OnReceive(cfg: Config, st: ChannelState, m: Message, now: nat)
    requires cfg.Valid() && Repair.RepairInv(cfg.repair, st.repair)
    ensures var quiet := RepairOnReceive(cfg, st, m, now);
            && Repair.RepairInv(cfg.repair, quiet)
            && SlotIds(quiet.requests) <= SlotIds(st.repair.requests)
            && (cfg.repairEnabled ==> m.messageId !in SlotIds(quiet.requests))
            && (!cfg.repairEnabled ==> quiet == st.repair)
  {
    if cfg.repairEnabled {
      Repair.MarkReceivedKeeps(cfg.repair, st.repair, m.messageId);
      Repair.ProcessRequestsKeeps(cfg.repair, Repair.MarkReceived(st.repair, m.messageId), m.repairRequest,
                                  st.log, now);
    }
  }

  ghost predicate Quiet(cfg: Config, c: Core) {
    !cfg.repairEnabled ==> c.ch.repair.requests == []
  }

  lemma ReceiveAsks(cfg: Config, c: Core, m: Message, now: nat)
    requires Shape(cfg, c.ch) && AsksInv(cfg, c) && Quiet(cfg, c)
    requires !NamesItself(m) && !Ignored(cfg, c.ch, m)
    ensures AsksInv(cfg, CoreReceive(cfg, c, m, now)) && Quiet(cfg, CoreReceive(cfg, c, m, now))
  {
    hide Received, RepairOnReceive, Delivered, Repair.MarkMissing, MissingEntries, ReviewAckStatus, BufferInv;
    hide DistinctIds, Ignored, Parsed;
    var c' := CoreReceive(cfg, c, m, now);
    ReceivedFields(cfg, c.ch, m, now);
    DeliveredFrame(cfg, c.ch, m);
    OnReceive(cfg, c.ch, m, now);
    var quiet := RepairOnReceive(cfg, c.ch, m, now);
    var missing := MissingEntries(m.causalHistory, Available(c.ch));
    MissingEntriesExactly(m.causalHistory, Available(c.ch));
    Repair.MarkMissingKeeps(cfg.repair, quiet.requests, missing, now);
    forall x | x in c'.ch.log || x in c'.ch.incoming ensures NotAskedFor(cfg, c'.ch.repair.requests, x) {
      if x != m {
        assert x in c.ch.log || x in c.ch.incoming by {
          if x in c'.ch.log { assert x in Elems(c'.ch.log); }
        }
        assert NotAskedFor(cfg, c.ch.repair.requests, x);
        assert x.messageId in Available(c.ch);
      }
      assert x.messageId !in EntryIds(missing);
    }
  }

  lemma SweepAsks(cfg: Config, c: Core, now: nat)
    requires Shape(cfg, c.ch) && AsksInv(cfg, c)
    ensures AsksInv(cfg, CoreSweep(cfg, c, now)) && CoreSweep(cfg, c, now).ch.repair == c.ch.repair
  {
    var c' := CoreSweep(cfg, c, now);
    SweepFrame(cfg, c.ch, |c.ch.incoming|, now);
    forall x | x in c'.ch.log || x in c'.ch.incoming ensures NotAskedFor(cfg, c.ch.repair.requests, x) {
      assert x in Elems(c.ch.log) + Elems(c.ch.incoming) by {
        assert x in Elems(c'.ch.log) || x in Elems(c'.ch.incoming);
      }
    }
  }

  lemma CommitAsks(cfg: Config, c: Core, m: Message, now: nat)
    requires Shape(cfg, c.ch) && AsksInv(cfg, c) && m in SentMessages(c)
    ensures AsksInv(cfg, CoreCommit(cfg, c, m, now))
  {
    var c' := CoreCommit(cfg, c, m, now);
    PushShape(c.ch.log, [m], cfg.maxLength);
    assert Elems([m]) == {m};
    hide Pushed;
    forall x | x in c'.ch.log ensures NotAskedFor(cfg, c.ch.repair.requests, x) {
      assert x in Elems(c'.ch.log);
      if x != m { assert x in Elems(c.ch.log); }
    }
  }

  lemma AsksStep(cfg: Config, c: Core, e: Effect)
    requires Shape(cfg, c.ch) && AsksInv(cfg, c) && Quiet(cfg, c) && Legal(c, e) && Meets(SelfFree, cfg, c, e)
    ensures AsksInv(cfg, Apply(cfg, c, e)) && Quiet(cfg, Apply(cfg, c, e))
  {
    var c' := Apply(cfg, c, e);
    match e
    case Create(payload, now, hints) =>
      if c'.ch.repair != c.ch.repair || |c'.hist.sent| > |c.hist.sent| {
        TakeKeeps(cfg, c, c', now);
      }
    case Sync(id, now, hints) => TakeKeeps(cfg, c, c', now);
    case Commit(m, now) => CommitAsks(cfg, c, m, now);
    case Receive(m, now) => if !Ignored(cfg, c.ch, m) { ReceiveAsks(cfg, c, m, now); }
    case Sweep(now) => SweepAsks(cfg, c, now);
    case AnswerRepairs(now) => Repair.NotReadyKeeps(c.ch.repair.responses, now, cfg.repair.bufferSize);
    case Idle =>
  }

  lemma {:induction false} AsksRun(cfg: Config, now: nat, groups: nat, actions: seq<Action>)
    requires cfg.Valid() && RunMeets(SelfFree, cfg, now, groups, actions)
    ensures AsksInv(cfg, Run(cfg, now, groups, actions).core) && Quiet(cfg, Run(cfg, now, groups, actions).core)
  {
    if |actions| > 0 {
      var before, a := Run(cfg, now, groups, actions[..|actions| - 1]), actions[|actions| - 1];
      AsksRun(cfg, now, groups, actions[..|actions| - 1]);
      OwnRun(cfg, now, groups, actions[..|actions| - 1]);
      OwnStep(cfg, before, a);
      StepIsApply(cfg, before, a);
      AsksStep(cfg, before.core, EffectOf(before, a));
    }
  }

  /** In every reachable state, truncated or not, timeout on or off, provided that
      what is received does not name itself: no message of another participant that
      is in the log or the incoming buffer is in the outgoing repair buffer, and
      both repair buffers are sorted by time, with distinct ids, within their
      size. */
  lemma NeverAsksForWhatItHas(cfg: Config, now: nat, groups: nat, actions: seq<Action>, m: Message)
    requires cfg.Valid() && RunMeets(SelfFree, cfg, now, groups, actions)
    requires var ch := Run(cfg, now, groups, actions).core.ch; m in ch.log || m in ch.incoming
    requires m.senderId != cfg.senderId
    ensures m.messageId !in SlotIds(Run(cfg, now, groups, actions).core.ch.repair.requests)
    ensures Repair.RepairInv(cfg.repair, Run(cfg, now, groups, actions).core.ch.repair)
  {
    AsksRun(cfg, now, groups, actions);
    assert NotAskedFor(cfg, Run(cfg, now, groups, actions).core.ch.repair.requests, m);
  }

  /** The id of a message newly buffered is asked for exactly when the message
      names itself and was not there already, whatever else it names, as long as
      the buffer of requests has room for what is missing. */
  lemma SelfDependencyIsAskedFor(cfg: Config, st: ChannelState, m: Message, now: nat)
    requires Shape(cfg, st) && Repair.RepairInv(cfg.repair, st.repair) && cfg.repairEnabled
    requires !Ignored(cfg, st, m) && Parsed(cfg, m) && !(EntryIds(m.causalHistory) <= Available(st))
    requires |st.repair.requests| + |MissingEntries(m.causalHistory, Available(st))| <= cfg.repair.bufferSize
    ensures var after := Received(cfg, st, m, now);
            && m in after.incoming
            && (m.messageId in SlotIds(after.repair.requests) <==> NamesItself(m) && m.messageId !in Available(st))
  {
    hide Received, ReviewAckStatus, RepairOnReceive, Delivered, Available, Repair.MarkMissing, MissingEntries;
    hide SlotIds, Ignored, Parsed, Repair.RepairInv;
    ReceivedFields(cfg, st, m, now);
    OnReceive(cfg, st, m, now);
    RequestsShrink(cfg, st, m, now);
    var quiet, missing := RepairOnReceive(cfg, st, m, now), MissingEntries(m.causalHistory, Available(st));
    MissingEntriesExactly(m.causalHistory, Available(st));
    RepairInvIsBufferInv(cfg, quiet);
    AllMissingAskedFor(cfg, quiet.requests, missing, now);
  }

  /** With room, what is asked for afterwards is what was before and what is
      missing. */
  lemma {:induction false} AllMissingAskedFor(cfg: Config, requests: seq<Slot>, missing: seq<HistoryEntry>, now: nat)
    requires cfg.Valid() && BufferInv(requests, cfg.repair.bufferSize)
    requires |requests| + |missing| <= cfg.repair.bufferSize
    ensures var after := Repair.MarkMissing(cfg.repair, requests, missing, now);
            && BufferInv(after, cfg.repair.bufferSize) && |after| <= |requests| + |missing|
            && SlotIds(after) == SlotIds(requests) + EntryIds(missing)
            && NewRequests(cfg, requests, after, missing, now)
  {
    hide BufferInv, SlotIds, RequestTime, NewRequests, Repair.TReq;
    if |missing| > 0 {
      var q, e := missing[..|missing| - 1], missing[|missing| - 1];
      assert missing == q + [e];
      AllMissingAskedFor(cfg, requests, q, now);
      var mid := Repair.MarkMissing(cfg.repair, requests, q, now);
      RequestTimeIs(cfg, e, now);
      AddedHere(mid, e, RequestTime(cfg, e, now), cfg.repair.bufferSize);
      AddedWithRoom(mid, e, RequestTime(cfg, e, now), cfg.repair.bufferSize);
      NewRequestsChain(cfg, requests, mid, Added(mid, e, RequestTime(cfg, e, now), cfg.repair.bufferSize), q, e, now);
      assert EntryIds(missing) == EntryIds(q) + {e.messageId};
    } else {
      NothingRequested(cfg, requests, missing, now);
    }
  }

  /** When a missing message is asked for: the time, the hash of the participant and
      the id reduced to the window, and the start of the window. */
  function RequestTime(cfg: Config, e: HistoryEntry, now: nat): nat
    requires cfg.Valid()
  {
    var window := cfg.repair.tMax - cfg.repair.tMin;
    now + cfg.repair.hash(cfg.senderId + e.messageId) % window % 9007199254740991 + cfg.repair.tMin
  }

  lemma RequestTimeIs(cfg: Config, e: HistoryEntry, now: nat)
    requires cfg.Valid()
    ensures Repair.TReq(cfg.repair, e.messageId, now) == RequestTime(cfg, e, now)
  {
  }

  /** The slots added are unmarked, for missing entries, at their time. */
  ghost predicate NewRequests(cfg: Config, before: seq<Slot>, after: seq<Slot>, missing: seq<HistoryEntry>, now: nat)
    requires cfg.Valid()
  {
    && (forall s :: s in before ==> s in after)
    && forall s :: s in after && s !in before ==>
         s.entry in missing && s.due == RequestTime(cfg, s.entry, now) && !s.requested
  }

  lemma NothingRequested(cfg: Config, a: seq<Slot>, missing: seq<HistoryEntry>, now: nat)
    requires cfg.Valid()
    ensures NewRequests(cfg, a, a, missing, now)
  {
  }

  lemma NewRequestsChain(
    cfg: Config, a: seq<Slot>, b: seq<Slot>, c: seq<Slot>, q: seq<HistoryEntry>, e: HistoryEntry, now: nat)
    requires cfg.Valid() && NewRequests(cfg, a, b, q, now)
    requires forall s :: s in b ==> s in c
    requires forall s :: s in c && s !in b ==> s == Slot(e, RequestTime(cfg, e, now), false)
    ensures NewRequests(cfg, a, c, q + [e], now)
  {
    hide RequestTime;
  }

  lemma AddedHere(items: seq<Slot>, e: HistoryEntry, due: nat, maxSize: nat)
    requires BufferInv(items, maxSize) && |items| < maxSize
    ensures var after := Added(items, e, due, maxSize);
            && (forall s :: s in items ==> s in after)
            && (forall s :: s in after && s !in items ==> s == Slot(e, due, false))
  {
    AddedKeeps(items, e, due, maxSize);
    var after := Added(items, e, due, maxSize);
    hide BufferInv, Added;
    forall s | s in items ensures s in after {
      assert s in Elems(items);
      assert e.messageId !in SlotIds(items) ==> s in Elems(after);
    }
    forall s | s in after && s !in items ensures s == Slot(e, due, false) {
      assert s in Elems(after) && s !in Elems(items);
    }
  }

  lemma AddedWithRoom(items: seq<Slot>, e: HistoryEntry, due: nat, maxSize: nat)
    requires BufferInv(items, maxSize) && |items| < maxSize
    ensures var after := Added(items, e, due, maxSize);
            && BufferInv(after, maxSize) && |after| <= |items| + 1
            && SlotIds(after) == SlotIds(items) + {e.messageId}
  {
    AddedKeeps(items, e, due, maxSize);
    var s := Slot(e, due, false);
    if e.messageId !in SlotIds(items) {
      AddedIsInsertion(items, e, due, maxSize);
      InsertSortedContents(items, s, DueLeq);
      hide Added, BufferInv, InsertSorted;
      SlotIdsOfElems(Added(items, e, due, maxSize), items, s);
    }
  }

  lemma SlotIdsOfElems(after: seq<Slot>, items: seq<Slot>, s: Slot)
    requires Elems(after) == Elems(items) + {s}
    ensures SlotIds(after) == SlotIds(items) + {s.entry.messageId}
  {
    forall x ensures x in SlotIds(after) <==> x in SlotIds(items) + {s.entry.messageId} {
      if x in SlotIds(after) {
        var t :| t in after && t.entry.messageId == x;
        assert t in Elems(after);
      }
      if x in SlotIds(items) {
        var t :| t in items && t.entry.messageId == x;
        assert t in Elems(after);
      }
      assert s in Elems(after);
    }
  }

  /** Receiving a message that is buffered, with room for what it misses: no longer
      asked for are the message itself and what its sender asks for; then everything
      it misses is asked for, each at its time. */
  lemma ReceptionAsks(cfg: Config, st: ChannelState, m: Message, now: nat)
    requires Shape(cfg, st) && Repair.RepairInv(cfg.repair, st.repair) && cfg.repairEnabled
    requires !Ignored(cfg, st, m) && Parsed(cfg, m) && !(EntryIds(m.causalHistory) <= Available(st))
    requires |st.repair.requests| + |MissingEntries(m.causalHistory, Available(st))| <= cfg.repair.bufferSize
    ensures var missing, after := MissingEntries(m.causalHistory, Available(st)), Received(cfg, st, m, now).repair;
            && SlotIds(after.requests) ==
               SlotIds(st.repair.requests) - {m.messageId} - EntryIds(m.repairRequest) + EntryIds(missing)
            && NewRequests(cfg, RepairOnReceive(cfg, st, m, now).requests, after.requests, missing, now)
  {
    hide Received, ReviewAckStatus, RepairOnReceive, Delivered, Available, Repair.MarkMissing, MissingEntries;
    hide SlotIds, Ignored, Parsed, Repair.RepairInv, NewRequests;
    ReceivedFields(cfg, st, m, now);
    OnReceive(cfg, st, m, now);
    RequestsShrink(cfg, st, m, now);
    RequestsAfter(cfg, st, m, now);
    var quiet := RepairOnReceive(cfg, st, m, now);
    RepairInvIsBufferInv(cfg, quiet);
    AllMissingAskedFor(cfg, quiet.requests, MissingEntries(m.causalHistory, Available(st)), now);
  }

  lemma RequestsAfter(cfg: Config, st: ChannelState, m: Message, now: nat)
    requires cfg.Valid() && cfg.repairEnabled
    ensures SlotIds(RepairOnReceive(cfg, st, m, now).requests) ==
            SlotIds(st.repair.requests) - {m.messageId} - EntryIds(m.repairRequest)
  {
    RequestDropped(st.repair.requests, m.messageId);
    AskedByOthers(cfg, Repair.MarkReceived(st.repair, m.messageId), m.repairRequest, st.log, now);
    hide Repair.ProcessRequests;
  }

  lemma RequestDropped(items: seq<Slot>, id: MessageId)
    ensures SlotIds(Removed(items, id)) == SlotIds(items) - {id}
  {
    RemovedExactly(items, id);
  }

  /** What others ask for, this node no longer asks for. */
  lemma {:induction false} AskedByOthers(
    cfg: Config, rs: Repair.RepairState, requests: seq<HistoryEntry>, log: seq<Message>, now: nat)
    requires cfg.Valid()
    ensures SlotIds(Repair.ProcessRequests(cfg.repair, rs, requests, log, now).requests) ==
            SlotIds(rs.requests) - EntryIds(requests)
  {
    if |requests| > 0 {
      var q, e := requests[..|requests| - 1], requests[|requests| - 1];
      assert requests == q + [e];
      AskedByOthers(cfg, rs, q, log, now);
      hide SlotIds, Removed, Added, Repair.Answers, Repair.TResp;
      RequestDropped(Repair.ProcessRequests(cfg.repair, rs, q, log, now).requests, e.messageId);
      assert EntryIds(requests) == EntryIds(q) + {e.messageId};
    }
  }

  /** Reception only takes requests away before it adds what is missing. */
  lemma RequestsShrink(cfg: Config, st: ChannelState, m: Message, now: nat)
    requires cfg.Valid()
    ensures |RepairOnReceive(cfg, st, m, now).requests| <= |st.repair.requests|
  {
    RemovedExactly(st.repair.requests, m.messageId);
    if cfg.repairEnabled {
      ProcessingShrinks(cfg, Repair.MarkReceived(st.repair, m.messageId), m.repairRequest, st.log, now);
    }
  }

  lemma {:induction false} ProcessingShrinks(
    cfg: Config, rs: Repair.RepairState, requests: seq<HistoryEntry>, log: seq<Message>, now: nat)
    requires cfg.Valid()
    ensures |Repair.ProcessRequests(cfg.repair, rs, requests, log, now).requests| <= |rs.requests|
  {
    if |requests| > 0 {
      var q := requests[..|requests| - 1];
      ProcessingShrinks(cfg, rs, q, log, now);
      RemovedExactly(Repair.ProcessRequests(cfg.repair, rs, q, log, now).requests, requests[|requests| - 1].messageId);
    }
  }

  lemma RepairInvIsBufferInv(cfg: Config, repair: Repair.RepairState)
    requires cfg.Valid() && Repair.RepairInv(cfg.repair, repair)
    ensures cfg.repair.bufferSize >= 1 && BufferInv(repair.requests, cfg.repair.bufferSize)
  {
    hide BufferInv;
  }
}
