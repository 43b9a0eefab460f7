/** Which messages a participant processes, what comes of each, and what its own
    messages are, over every run. */
module Reception {
  import opened Basics
  import opened Messages
  import opened Bloom
  import opened LocalHistory
  import opened Channel
  import opened Participant
  import opened Building
  import Bits

  // What is processed.

  /** A message of this channel, of another sender, with a timestamp; and unless it
      is a sync message, not one that was buffered or committed before. */
  predicate Processable(cfg: Config, ch: ChannelState, m: Message) {
    && m.channelId == cfg.channelId && m.senderId != cfg.senderId && m.lamportTimestamp.Some?
    && (IsSync(m) || m.messageId !in ch.received)
  }

  /** Starting a reception processes the message exactly when it should be, and
      otherwise leaves everything as it was. */
  lemma ReceptionDecided(cfg: Config, p: Participant, i: nat, now: nat, hints: map<MessageId, Bytes>, m: Message)
    requires Shape(cfg, p.core.ch) && Starts(p, Start(i, now, hints)) && p.tasks[0] == ReceiveTask(m)
    ensures var after := Step(cfg, p, Start(i, now, hints));
            && (Processable(cfg, p.core.ch, m) ==> after.core.hist.reviewed == p.core.hist.reviewed + [m])
            && (!Processable(cfg, p.core.ch, m) ==> after.core == p.core)
            && after.tasks == p.tasks[1..]
  {
    hide Received;
  }

  ghost predicate Lacks(ch: ChannelState, m: Message) {
    exists e :: e in m.causalHistory && e.messageId !in Ids(ch.log) && e.messageId !in Ids(ch.incoming)
  }

  /** The bits of a filter after one more id. */
  ghost predicate FilterGains(cfg: Config, before: seq<nat>, after: seq<nat>, id: MessageId) {
    forall h: nat :: HasBit(after, h) <==>
      HasBit(before, h) || exists k: nat :: k < cfg.filter.kHashes && h == cfg.filter.hashN(id, k, cfg.filter.totalBits)
  }

  /** The greater of the two. */
  predicate Raised(clock: nat, timestamp: nat, next: nat) {
    next >= clock && next >= timestamp && (next == clock || next == timestamp)
  }

  lemma InsertedGains(cfg: Config, data: seq<nat>, id: MessageId)
    requires WellSized(cfg.filter, data)
    ensures FilterGains(cfg, data, Inserted(cfg.filter, data, id), id)
  {
    forall h: nat
      ensures HasBit(Inserted(cfg.filter, data, id), h) <==>
              HasBit(data, h)
              || exists k: nat :: k < cfg.filter.kHashes && h == cfg.filter.hashN(id, k, cfg.filter.totalBits)
    {
      InsertedExactly(cfg.filter, data, id, h);
    }
  }

  /** What becomes of a processed message whose filter parses. */
  lemma ReceptionOutcome(cfg: Config, c: Core, m: Message, now: nat)
    requires Shape(cfg, c.ch) && Processable(cfg, c.ch, m) && Parsed(cfg, m)
    ensures var before, after := c.ch, CoreReceive(cfg, c, m, now).ch;
            && (if IsContent(m) then FilterGains(cfg, before.filter, after.filter, m.messageId)
                else after.filter == before.filter)
            && (Lacks(before, m) ==>
                  && after.incoming == before.incoming + [m] && after.received == before.received[m.messageId := now]
                  && after.log == before.log && after.clock == before.clock)
            && (!Lacks(before, m) ==>
                  && after.incoming == before.incoming && after.received == before.received
                  && (IsSync(m) ==> after.log == before.log && after.clock == before.clock)
                  && (IsContent(m) ==> Raised(before.clock, m.lamportTimestamp.value, after.clock))
                  && (IsContent(m) && m.messageId in Ids(before.log) ==> after.log == before.log)
                  && (IsContent(m) && m.messageId !in Ids(before.log) ==>
                        after.log == Pushed(before.log, [m], cfg.maxLength)))
  {
    hide Received, ReviewAckStatus, RepairOnReceive, Pushed, Inserted, FilterGains, Ids;
    ReceivedFields(cfg, c.ch, m, now);
    LacksIsMissing(c.ch, m);
    if IsContent(m) { InsertedGains(cfg, c.ch.filter, m.messageId); }
  }

  lemma LacksIsMissing(ch: ChannelState, m: Message)
    ensures Lacks(ch, m) <==> !(EntryIds(m.causalHistory) <= Available(ch))
  {
    hide Ids;
    if !(EntryIds(m.causalHistory) <= Available(ch)) {
      var x :| x in EntryIds(m.causalHistory) && x !in Available(ch);
      var e :| e in m.causalHistory && e.messageId == x;
      assert Lacks(ch, m);
    }
    if Lacks(ch, m) {
      var e :| e in m.causalHistory && e.messageId !in Ids(ch.log) && e.messageId !in Ids(ch.incoming);
      assert e.messageId in EntryIds(m.causalHistory);
    }
  }

  /** A filter that does not parse stops reception after the acknowledgements: the
      message is not inserted, buffered or delivered. */
  lemma UnparsedOutcome(cfg: Config, c: Core, m: Message, now: nat)
    requires Shape(cfg, c.ch) && Processable(cfg, c.ch, m) && !Parsed(cfg, m)
    ensures var before, after := c.ch, CoreReceive(cfg, c, m, now).ch;
            after == before.(outgoing := after.outgoing, repair := after.repair) && after.acks == before.acks
  {
    hide Received, ReviewFilter, RepairOnReceive;
    ReceivedFields(cfg, c.ch, m, now);
  }

  /** What a sweep decides about a buffered message: it stays when something it names
      is neither logged nor waiting, unless a timeout is set, the time it was buffered
      at is recorded and not zero, and more than the timeout has passed since. */
  lemma SweepDecision(cfg: Config, acc: SweepState, m: Message, now: nat)
    ensures var after, st := SweepMessage(cfg, acc, m, now), acc.st;
            var overdue := cfg.timeoutForLostMessagesMs > 0 && m.messageId in st.received
                           && st.received[m.messageId] > 0
                           && now > st.received[m.messageId] + cfg.timeoutForLostMessagesMs;
            && (Lacks(st, m) && !overdue ==> after.st == st && after.buffer == acc.buffer + [m])
            && (!Lacks(st, m) || overdue ==>
                  && after.buffer == acc.buffer && after.missing == acc.missing
                  && (!IsContent(m) ==> after.st == st)
                  && (IsContent(m) ==>
                        && Raised(st.clock, m.lamportTimestamp.value, after.st.clock)
                        && after.st == st.(clock := after.st.clock, log := after.st.log)
                        && after.st.log == if m.messageId in Ids(st.log) then st.log
                                           else Pushed(st.log, [m], cfg.maxLength)))
  {
    LacksIsMissing(acc.st, m);
    MissingEntriesExactly(m.causalHistory, Available(acc.st));
    hide MissingEntries, Available, Pushed, Ids, EntryIds, Lacks;
  }

  // Sending.

  /** Starting a send leaves a message under the payload's id in the outgoing buffer;
      a new one is built as it should be, a waiting one is left alone. With a
      callback, the loop waits for its answer about that very message. */
  lemma SendStarted(
    cfg: Config, p: Participant, i: nat, now: nat, hints: map<MessageId, Bytes>, payload: Bytes, hasCallback: bool)
    requires Shape(cfg, p.core.ch) && Starts(p, Start(i, now, hints)) && p.tasks[0] == SendTask(payload, hasCallback)
    ensures var id := cfg.messageIdOf(payload);
            var before, after := p.core, Step(cfg, p, Start(i, now, hints));
            var loop := after.loops[i];
            && (id !in Ids(before.ch.outgoing) ==>
                  && |after.core.ch.outgoing| == |before.ch.outgoing| + 1
                  && var m := after.core.ch.outgoing[|before.ch.outgoing|];
                     && m.messageId == id && m.content == Some(payload)
                     && BuiltIn(cfg, before.ch, after.core.ch, m, now, hints)
                     && after.core.ch.outgoing == before.ch.outgoing + [m]
                     && |after.core.hist.sent| == |before.hist.sent| + 1
                     && after.core.hist.sent[|before.hist.sent|].message == m
                     && loop == if hasCallback then Awaiting(Some(m)) else AtHead)
            && (id in Ids(before.ch.outgoing) ==>
                  && after.core == before.(ch := before.ch.(clock := after.core.ch.clock))
                  && Advances(before.ch.clock, now, after.core.ch.clock)
                  && if hasCallback
                     then loop.Awaiting? && loop.message.Some? && loop.message.value in before.ch.outgoing
                          && loop.message.value.messageId == id
                     else loop == AtHead)
  {
    hide BuiltIn, Recent, EntriesFor, TakeRepairRequests;
    ClockAdvances(p.core.ch.clock, now);
    if cfg.messageIdOf(payload) !in Ids(p.core.ch.outgoing) {
      ContentIsBuilt(cfg, p.core.ch, payload, now, hints);
    }
  }

  /** When the callback reports success the message is in the filter, recorded as
      received, known, and pushed on the log; otherwise nothing changes. */
  lemma SendResumed(cfg: Config, p: Participant, i: nat, success: bool, now: nat, m: Message)
    requires Shape(cfg, p.core.ch) && i < |p.loops| && p.loops[i] == Awaiting(Some(m)) && IsContent(m)
    ensures var before, after := p.core, Step(cfg, p, Resume(i, success, now)).core;
            && (!success ==> after == before)
            && (success ==>
                  && FilterGains(cfg, before.ch.filter, after.ch.filter, m.messageId)
                  && after.ch.received == before.ch.received[m.messageId := now]
                  && after.ch.log == Pushed(before.ch.log, [m], cfg.maxLength)
                  && after.ch == before.ch.(filter := after.ch.filter, received := after.ch.received,
                                            log := after.ch.log)
                  && after.hist.known == before.hist.known + {m.messageId})
  {
    hide Inserted, FilterGains, Pushed;
    InsertedGains(cfg, p.core.ch.filter, m.messageId);
  }

  /** A sync message is sent exactly when there is something to name or to ask for. */
  lemma SyncSent(cfg: Config, p: Participant, id: MessageId, now: nat, hints: map<MessageId, Bytes>)
    requires Shape(cfg, p.core.ch)
    ensures var before, after := p.core, Step(cfg, p, SendSync(id, now, hints)).core;
            var due := cfg.repairEnabled && exists s :: s in before.ch.repair.requests && s.due <= now && !s.requested;
            && (|before.ch.log| > 0 || due ==>
                  && |after.hist.sent| == |before.hist.sent| + 1
                  && after.hist.sent[..|before.hist.sent|] == before.hist.sent
                  && var m := after.hist.sent[|before.hist.sent|].message;
                     m.messageId == id && m.content.None? && BuiltIn(cfg, before.ch, after.ch, m, now, hints))
            && (!(|before.ch.log| > 0 || due) ==> after.hist == before.hist)
            && Advances(before.ch.clock, now, after.ch.clock)
  {
    hide BuiltIn, Recent, EntriesFor, TakeRepairRequests;
    var (after, m) := SyncCreated(cfg, p.core.ch, id, now, hints);
    SyncIsBuilt(cfg, p.core.ch, id, now, hints);
    BuiltAdvances(cfg, p.core.ch, after, m, now, hints);
  }

  lemma BuiltAdvances(
    cfg: Config, st: ChannelState, after: ChannelState, m: Option<Message>, now: nat, hints: map<MessageId, Bytes>)
    requires m.Some? ==> BuiltIn(cfg, st, after, m.value, now, hints)
    requires m.None? ==> Advances(st.clock, now, after.clock)
    ensures Advances(st.clock, now, after.clock)
  {
  }

  // Over every run.

  /** A message that may have been processed: of this channel, of another sender. */
  predicate Foreign(cfg: Config, m: Message) {
    m.channelId == cfg.channelId && m.senderId != cfg.senderId && m.lamportTimestamp.Some?
  }

  /** An own message: of this channel and sender, and if it has content, under the id
      of that content. */
  predicate Own(cfg: Config, m: Message) {
    && m.channelId == cfg.channelId && m.senderId == cfg.senderId
    && (IsContent(m) ==> cfg.messageIdOf(m.content.value) == m.messageId)
  }

  ghost predicate Provenance(cfg: Config, c: Core) {
    && (forall m :: m in c.ch.log ==> Foreign(cfg, m) || m in SentMessages(c))
    && (forall m :: m in c.ch.incoming ==> Foreign(cfg, m))
    && (forall m :: m in c.hist.reviewed ==> Foreign(cfg, m))
    && (forall s :: s in c.hist.sent ==> Own(cfg, s.message))
  }

  lemma LogFrom(cfg: Config, c: Core, c': Core, more: set<Message>)
    requires forall m :: m in c.ch.log ==> Foreign(cfg, m) || m in SentMessages(c)
    requires Elems(c'.ch.log) <= Elems(c.ch.log) + more && SentMessages(c) <= SentMessages(c')
    requires forall m :: m in more ==> Foreign(cfg, m) || m in SentMessages(c')
    ensures forall m :: m in c'.ch.log ==> Foreign(cfg, m) || m in SentMessages(c')
  {
    hide SentMessages;
    forall m | m in c'.ch.log ensures Foreign(cfg, m) || m in SentMessages(c') {
      assert m in Elems(c'.ch.log);
      if m !in more { assert m in Elems(c.ch.log); }
    }
  }

  lemma BuiltProvenance(cfg: Config, c: Core, c': Core, s: Sent)
    requires Provenance(cfg, c) && c'.hist.sent == c.hist.sent + [s] && Own(cfg, s.message)
    requires c'.ch.log == c.ch.log && c'.ch.incoming == c.ch.incoming && c'.hist.reviewed == c.hist.reviewed
    ensures Provenance(cfg, c')
  {
    SentSnoc(c, s, c');
    hide SentMessages, Own, Foreign;
    forall t | t in c'.hist.sent ensures Own(cfg, t.message) {
      if t != s { assert t in c.hist.sent; }
    }
  }

  lemma CreateProvenance(cfg: Config, c: Core, payload: Bytes, now: nat, hints: map<MessageId, Bytes>)
    requires Shape(cfg, c.ch) && Provenance(cfg, c)
    ensures Provenance(cfg, CoreCreate(cfg, c, payload, now, hints))
  {
    hide Provenance, BuiltIn, Recent, EntriesFor, TakeRepairRequests, SentMessages;
    var c' := CoreCreate(cfg, c, payload, now, hints);
    if cfg.messageIdOf(payload) in Ids(c.ch.outgoing) {
      SameProvenance(cfg, c, c');
    } else {
      BuiltProvenance(cfg, c, c', c'.hist.sent[|c.hist.sent|]);
    }
  }

  lemma SyncProvenance(cfg: Config, c: Core, id: MessageId, now: nat, hints: map<MessageId, Bytes>)
    requires Shape(cfg, c.ch) && Provenance(cfg, c)
    ensures Provenance(cfg, CoreSync(cfg, c, id, now, hints))
  {
    hide Provenance, Recent, EntriesFor, TakeRepairRequests, SentMessages;
    var c' := CoreSync(cfg, c, id, now, hints);
    if |c'.hist.sent| > |c.hist.sent| {
      BuiltProvenance(cfg, c, c', c'.hist.sent[|c.hist.sent|]);
    } else {
      SameProvenance(cfg, c, c');
    }
  }

  lemma SameProvenance(cfg: Config, c: Core, c': Core)
    requires Provenance(cfg, c) && c'.hist.sent == c.hist.sent && c'.hist.reviewed == c.hist.reviewed
    requires c'.ch.log == c.ch.log && c'.ch.incoming == c.ch.incoming
    ensures Provenance(cfg, c')
  {
    hide Own, Foreign;
  }

  lemma ReceiveProvenance(cfg: Config, c: Core, m: Message, now: nat)
    requires Shape(cfg, c.ch) && Provenance(cfg, c) && !Ignored(cfg, c.ch, m)
    ensures Provenance(cfg, CoreReceive(cfg, c, m, now))
  {
    var c' := CoreReceive(cfg, c, m, now);
    assert Foreign(cfg, m);
    hide Received, ReviewAckStatus, RepairOnReceive, Delivered, Available, Parsed, Ignored, Own, Foreign, DistinctIds;
    ReceivedFields(cfg, c.ch, m, now);
    DeliveredFrame(cfg, c.ch, m);
    assert SentMessages(c') == SentMessages(c);
    LogFrom(cfg, c, c', {m});
  }

  lemma SweepProvenance(cfg: Config, c: Core, now: nat)
    requires Provenance(cfg, c)
    ensures Provenance(cfg, CoreSweep(cfg, c, now))
  {
    var c', out := CoreSweep(cfg, c, now), SweptOut(cfg, c.ch, |c.ch.incoming|, now);
    SweepFields(cfg, c, now);
    hide CoreSweep, SweptOut, Own, Foreign;
    assert SentMessages(c') == SentMessages(c);
    forall m | m in c'.ch.incoming ensures Foreign(cfg, m) {
      assert m in Elems(c'.ch.incoming);
    }
    LogFrom(cfg, c, c', out);
  }

  lemma CommitProvenance(cfg: Config, c: Core, m: Message, now: nat)
    requires Shape(cfg, c.ch) && Provenance(cfg, c) && m in SentMessages(c)
    ensures Provenance(cfg, CoreCommit(cfg, c, m, now))
  {
    var c' := CoreCommit(cfg, c, m, now);
    PushShape(c.ch.log, [m], cfg.maxLength);
    assert Elems([m]) == {m};
    assert SentMessages(c') == SentMessages(c);
    hide Pushed, Own, Foreign, SentMessages, DistinctIds;
    LogFrom(cfg, c, c', {m});
  }

  lemma ProvenanceStep(cfg: Config, c: Core, e: Effect)
    requires Shape(cfg, c.ch) && Provenance(cfg, c) && Legal(c, e)
    ensures Provenance(cfg, Apply(cfg, c, e))
  {
    hide Provenance, CoreReceive, CoreSweep, CoreCommit, CoreCreate, CoreSync;
    match e
    case Create(payload, now, hints) => CreateProvenance(cfg, c, payload, now, hints);
    case Sync(id, now, hints) => SyncProvenance(cfg, c, id, now, hints);
    case Commit(m, now) => CommitProvenance(cfg, c, m, now);
    case Receive(m, now) =>
      if Ignored(cfg, c.ch, m) {
        IgnoredLeaves(cfg, c, m, now);
      } else {
        ReceiveProvenance(cfg, c, m, now);
      }
    case Sweep(now) => SweepProvenance(cfg, c, now);
    case AnswerRepairs(now) => SameProvenance(cfg, c, Apply(cfg, c, e));
    case Idle =>
  }

  lemma IgnoredLeaves(cfg: Config, c: Core, m: Message, now: nat)
    requires Shape(cfg, c.ch) && Ignored(cfg, c.ch, m)
    ensures CoreReceive(cfg, c, m, now) == c
  {
  }

  lemma {:induction false} ProvenanceRun(cfg: Config, now: nat, groups: nat, actions: seq<Action>)
    requires cfg.Valid()
    ensures Provenance(cfg, Run(cfg, now, groups, actions).core)
  {
    if |actions| > 0 {
      var before, a := Run(cfg, now, groups, actions[..|actions| - 1]), actions[|actions| - 1];
      ProvenanceRun(cfg, now, groups, actions[..|actions| - 1]);
      OwnRun(cfg, now, groups, actions[..|actions| - 1]);
      OwnStep(cfg, before, a);
      StepIsApply(cfg, before, a);
      hide Provenance, Apply, OwnInv;
      ProvenanceStep(cfg, before.core, EffectOf(before, a));
    }
  }

  /** In every reachable state all that is logged, waiting or was processed is of this
      channel; what waits or was processed came from others. */
  lemma OnlyThisChannel(cfg: Config, now: nat, groups: nat, actions: seq<Action>, m: Message)
    requires cfg.Valid()
    requires var c := Run(cfg, now, groups, actions).core; m in c.ch.log || m in c.ch.incoming || m in c.hist.reviewed
    ensures m.channelId == cfg.channelId
    ensures var c := Run(cfg, now, groups, actions).core;
            m in c.ch.incoming || m in c.hist.reviewed ==> m.senderId != cfg.senderId
  {
    ProvenanceRun(cfg, now, groups, actions);
    hide Run;
    var c := Run(cfg, now, groups, actions).core;
    if m in SentMessages(c) {
      var s :| s in c.hist.sent && s.message == m;
    }
  }

  /** In every reachable state what was built is this participant's, and content is
      under its own id. */
  lemma BuiltIsOwn(cfg: Config, now: nat, groups: nat, actions: seq<Action>, m: Message)
    requires cfg.Valid() && m in SentMessages(Run(cfg, now, groups, actions).core)
    ensures m.channelId == cfg.channelId && m.senderId == cfg.senderId
    ensures IsContent(m) ==> cfg.messageIdOf(m.content.value) == m.messageId
  {
    ProvenanceRun(cfg, now, groups, actions);
    hide Run;
    var s :| s in Run(cfg, now, groups, actions).core.hist.sent && s.message == m;
  }

  // The log stays sorted, and the filter exact.

  lemma DeliveredSorted(cfg: Config, st: ChannelState, m: Message)
    requires StrictlySorted(st.log)
    ensures StrictlySorted(Delivered(cfg, st, m).log)
  {
    hide Pushed, StrictlySorted, Ids;
    PushSorts(st.log, [m], cfg.maxLength);
  }

  lemma {:induction false} SweepSorted(cfg: Config, st: ChannelState, n: nat, now: nat)
    requires n <= |st.incoming| && StrictlySorted(st.log)
    ensures StrictlySorted(SweepFirst(cfg, st, n, now).st.log)
  {
    hide StrictlySorted, Delivered, MissingEntries, TimedOut, Available;
    if n > 0 {
      SweepSorted(cfg, st, n - 1, now);
      DeliveredSorted(cfg, SweepFirst(cfg, st, n - 1, now).st, st.incoming[n - 1]);
    }
  }

  /** The bits set are those of the ids known, and no others. */
  ghost predicate FilterExact(cfg: Config, c: Core) {
    forall h: nat :: HasBit(c.ch.filter, h) <==> SomeKnownHas(cfg, c.hist.known, h)
  }

  ghost predicate SomeKnownHas(cfg: Config, known: set<MessageId>, h: nat) {
    exists id, k: nat :: id in known && k < cfg.filter.kHashes && h == cfg.filter.hashN(id, k, cfg.filter.totalBits)
  }

  ghost predicate Tidy(cfg: Config, c: Core) {
    StrictlySorted(c.ch.log) && FilterExact(cfg, c)
  }

  lemma FilterStays(cfg: Config, c: Core, c': Core)
    requires FilterExact(cfg, c) && c'.ch.filter == c.ch.filter && c'.hist.known == c.hist.known
    ensures FilterExact(cfg, c')
  {
    hide SomeKnownHas, HasBit;
  }

  lemma FilterExtends(cfg: Config, c: Core, c': Core, id: MessageId)
    requires FilterExact(cfg, c) && FilterGains(cfg, c.ch.filter, c'.ch.filter, id)
    requires c'.hist.known == c.hist.known + {id}
    ensures FilterExact(cfg, c')
  {
    hide HasBit;
    forall h: nat ensures HasBit(c'.ch.filter, h) <==> SomeKnownHas(cfg, c'.hist.known, h) {
      assert HasBit(c.ch.filter, h) <==> SomeKnownHas(cfg, c.hist.known, h);
      if k: nat :| k < cfg.filter.kHashes && h == cfg.filter.hashN(id, k, cfg.filter.totalBits) {
        assert id in c'.hist.known;
        assert SomeKnownHas(cfg, c'.hist.known, h);
      }
      if SomeKnownHas(cfg, c.hist.known, h) {
        var x, k: nat :|
          x in c.hist.known && k < cfg.filter.kHashes && h == cfg.filter.hashN(x, k, cfg.filter.totalBits);
        assert x in c'.hist.known;
      }
    }
  }

  lemma TidyReceive(cfg: Config, c: Core, m: Message, now: nat)
    requires Shape(cfg, c.ch) && Tidy(cfg, c) && !Ignored(cfg, c.ch, m)
    ensures Tidy(cfg, CoreReceive(cfg, c, m, now))
  {
    var c' := CoreReceive(cfg, c, m, now);
    hide Received, ReviewAckStatus, RepairOnReceive, Delivered, Available, Inserted, StrictlySorted;
    hide FilterExact, FilterGains;
    ReceivedFields(cfg, c.ch, m, now);
    DeliveredSorted(cfg, c.ch, m);
    if Parsed(cfg, m) && IsContent(m) {
      InsertedGains(cfg, c.ch.filter, m.messageId);
      FilterExtends(cfg, c, c', m.messageId);
    } else {
      assert c'.hist.known == c.hist.known;
      FilterStays(cfg, c, c');
    }
  }

  lemma TidyStep(cfg: Config, c: Core, e: Effect)
    requires Shape(cfg, c.ch) && Tidy(cfg, c)
    ensures Tidy(cfg, Apply(cfg, c, e))
  {
    hide FilterExact, StrictlySorted, Pushed, Inserted, FilterGains, Received;
    var c' := Apply(cfg, c, e);
    match e
    case Commit(m, now) =>
      PushSorts(c.ch.log, [m], cfg.maxLength);
      InsertedGains(cfg, c.ch.filter, m.messageId);
      FilterExtends(cfg, c, c', m.messageId);
    case Receive(m, now) => if !Ignored(cfg, c.ch, m) { TidyReceive(cfg, c, m, now); }
    case Sweep(now) =>
      SweepSorted(cfg, c.ch, |c.ch.incoming|, now);
      SweepFields(cfg, c, now);
      FilterStays(cfg, c, c');
    case _ => FilterStays(cfg, c, c');
  }

  /** In every reachable state the log is strictly sorted by key, and the filter has
      exactly the bits of the ids processed or committed. */
  lemma {:induction false} TidyRun(cfg: Config, now: nat, groups: nat, actions: seq<Action>)
    requires cfg.Valid()
    ensures StrictlySorted(Run(cfg, now, groups, actions).core.ch.log)
    ensures FilterExact(cfg, Run(cfg, now, groups, actions).core)
  {
    if |actions| > 0 {
      var before, a := Run(cfg, now, groups, actions[..|actions| - 1]), actions[|actions| - 1];
      TidyRun(cfg, now, groups, actions[..|actions| - 1]);
      StepIsApply(cfg, before, a);
      hide FilterExact, StrictlySorted, Apply;
      TidyStep(cfg, before.core, EffectOf(before, a));
    } else {
      EmptyHasNoBits(cfg);
    }
  }

  lemma EmptyHasNoBits(cfg: Config)
    ensures forall h: nat :: !HasBit(Empty(cfg.filter), h)
  {
    forall h: nat ensures !HasBit(Empty(cfg.filter), h) {
      Bits.ZeroHasNoBits(h % WORD_BITS);
    }
  }

  /** In every run, whatever is built next while the log is not empty names the
      greatest message of the log, and leaves out only smaller messages than it
      names. */
  lemma NewestAlwaysNamed(cfg: Config, now: nat, groups: nat, actions: seq<Action>, m: Message, after: ChannelState,
                          when: nat, hints: map<MessageId, Bytes>)
    requires cfg.Valid()
    requires var st := Run(cfg, now, groups, actions).core.ch; |st.log| > 0 && BuiltIn(cfg, st, after, m, when, hints)
    ensures NamesGreatest(Run(cfg, now, groups, actions).core.ch.log, EntryIds(m.causalHistory))
  {
    TidyRun(cfg, now, groups, actions);
    OwnRun(cfg, now, groups, actions);
    hide Run, StrictlySorted, DistinctIds, TakesRequests, CarriesFilter, NamesNewest, NamesGreatest, FilterExact;
    NewestNamed(Run(cfg, now, groups, actions).core.ch.log, cfg.causalHistorySize, m.causalHistory);
  }
}
