/** One participant over a whole run: the channel, its task queue, any number of
    `processTasks` loops in flight, and a history of what happened.

    The runtime is single-threaded: code runs from one `await` to the next
    without interruption. So a step is an iteration of one loop up to the
    callback of a send, the rest of a send once its callback has answered, or one
    of the calls made outside the queue. Which step comes next is free choice. */
module Participant {
  import opened Basics
  import opened Messages
  import opened Bloom
  import opened LocalHistory
  import opened Repair
  import opened Channel

  // What happens to the channel, and the record kept of it.

  /** A message built here, with the ids then in the filter and the log messages
      its causal history names. */
  datatype Sent = Sent(message: Message, knows: set<MessageId>, causes: seq<Message>)

  /** `since` says how many messages had been reviewed when the message now or
      last buffered under an id was built. */
  datatype History = History(
    sent: seq<Sent>,
    reviewed: seq<Message>,
    since: map<MessageId, nat>,
    known: set<MessageId>,
    delivered: set<Message>)

  datatype Core = Core(ch: ChannelState, hist: History)

  datatype Effect =
    | Create(payload: Bytes, now: nat, hints: map<MessageId, Bytes>)
    | Commit(message: Message, now: nat)
    | Receive(message: Message, now: nat)
    | Sweep(now: nat)
    | Sync(id: MessageId, now: nat, hints: map<MessageId, Bytes>)
    | AnswerRepairs(now: nat)
    | Idle

  ghost predicate Parsed(cfg: Config, m: Message) {
    m.bloomFilter.Some? ==> BytesToWords(m.bloomFilter.value, cfg.filter.NumWords()).Success?
  }

  ghost function CoreCreate(cfg: Config, c: Core, payload: Bytes, now: nat, hints: map<MessageId, Bytes>): Core {
    var (ch, m) := ContentCreated(cfg, c.ch, payload, now, hints);
    if cfg.messageIdOf(payload) in Ids(c.ch.outgoing) then c.(ch := ch)
    else Core(ch, c.hist.(sent := c.hist.sent + [Sent(m, c.hist.known, Recent(c.ch.log, cfg.causalHistorySize))],
                          since := c.hist.since[m.messageId := |c.hist.reviewed|]))
  }

  ghost function CoreCommit(cfg: Config, c: Core, m: Message, now: nat): Core
    requires Shape(cfg, c.ch)
  {
    Core(Committed(cfg, c.ch, m, now),
         c.hist.(known := c.hist.known + {m.messageId}, delivered := c.hist.delivered + {m}))
  }

  ghost predicate DeliveredAtOnce(cfg: Config, ch: ChannelState, m: Message) {
    Parsed(cfg, m) && IsContent(m) && EntryIds(m.causalHistory) <= Available(ch)
  }

  ghost function CoreReceive(cfg: Config, c: Core, m: Message, now: nat): Core
    requires Shape(cfg, c.ch)
  {
    if Ignored(cfg, c.ch, m) then c
    else
      Core(Received(cfg, c.ch, m, now),
           c.hist.(reviewed := c.hist.reviewed + [m],
                   known := c.hist.known + (if Parsed(cfg, m) && IsContent(m) then {m.messageId} else {}),
                   delivered := c.hist.delivered + (if DeliveredAtOnce(cfg, c.ch, m) then {m} else {})))
  }

  /** The content messages the first `n` steps of a sweep deliver. */
  ghost function SweptOut(cfg: Config, st: ChannelState, n: nat, now: nat): set<Message>
    requires n <= |st.incoming|
  {
    if n == 0 then {}
    else
      var acc, m := SweepFirst(cfg, st, n - 1, now), st.incoming[n - 1];
      SweptOut(cfg, st, n - 1, now) +
      if IsContent(m) && (EntryIds(m.causalHistory) <= Available(acc.st) || TimedOut(cfg, acc.st, m, now))
      then {m} else {}
  }

  ghost function CoreSweep(cfg: Config, c: Core, now: nat): Core {
    Core(Swept(cfg, c.ch, now).0,
         c.hist.(delivered := c.hist.delivered + SweptOut(cfg, c.ch, |c.ch.incoming|, now)))
  }

  ghost function CoreSync(cfg: Config, c: Core, id: MessageId, now: nat, hints: map<MessageId, Bytes>): Core {
    var (ch, m) := SyncCreated(cfg, c.ch, id, now, hints);
    if m.None? then c.(ch := ch)
    else Core(ch, c.hist.(sent := c.hist.sent + [Sent(m.value, c.hist.known, Recent(c.ch.log, cfg.causalHistorySize))]))
  }

  ghost function Apply(cfg: Config, c: Core, e: Effect): (r: Core)
    requires Shape(cfg, c.ch)
    ensures Shape(cfg, r.ch)
  {
    match e
    case Create(payload, now, hints) => CoreCreate(cfg, c, payload, now, hints)
    case Commit(m, now) => CoreCommit(cfg, c, m, now)
    case Receive(m, now) => CoreReceive(cfg, c, m, now)
    case Sweep(now) =>
      SweepFrame(cfg, c.ch, |c.ch.incoming|, now);
      CoreSweep(cfg, c, now)
    case Sync(id, now, hints) => CoreSync(cfg, c, id, now, hints)
    case AnswerRepairs(now) =>
      if cfg.repairEnabled then c.(ch := c.ch.(repair := SweepResponses(c.ch.repair, c.ch.log, now).0)) else c
    case Idle => c
  }

  lemma DeliveredFrame(cfg: Config, st: ChannelState, m: Message)
    ensures var d := Delivered(cfg, st, m);
            && d == st.(clock := d.clock, log := d.log)
            && st.clock <= d.clock
            && (IsContent(m) ==> m.lamportTimestamp.value <= d.clock)
            && (!IsContent(m) ==> d == st)
            && Elems(d.log) <= Elems(st.log) + {m}
            && (DistinctIds(st.log) ==> DistinctIds(d.log))
  {
    hide Pushed, Ids, DistinctIds;
    PushShape(st.log, [m], cfg.maxLength);
    assert Elems([m]) == {m};
  }

  ghost predicate SweepFramed(st: ChannelState, acc: SweepState, out: set<Message>) {
    && acc.st == st.(clock := acc.st.clock, log := acc.st.log)
    && st.clock <= acc.st.clock
    && Elems(acc.st.log) <= Elems(st.log) + out
    && out <= Elems(st.incoming)
    && Elems(acc.buffer) <= Elems(st.incoming)
    && (DistinctIds(st.log) ==> DistinctIds(acc.st.log))
    && (forall m :: m in out ==> IsContent(m) && m.lamportTimestamp.value <= acc.st.clock)
  }

  /** Whatever the timeout does, a sweep only moves content messages from the
      buffer to the log and raises the clock. */
  lemma {:induction false} SweepFrame(cfg: Config, st: ChannelState, n: nat, now: nat)
    requires n <= |st.incoming|
    ensures SweepFramed(st, SweepFirst(cfg, st, n, now), SweptOut(cfg, st, n, now))
  {
    if n > 0 {
      hide SweepFramed, SweepMessage, Delivered, Available, TimedOut, MissingEntries;
      SweepFrame(cfg, st, n - 1, now);
      var acc, m := SweepFirst(cfg, st, n - 1, now), st.incoming[n - 1];
      assert m in Elems(st.incoming);
      SweepFrameStep(cfg, st, acc, SweptOut(cfg, st, n - 1, now), m, now);
      MissingEntriesExactly(m.causalHistory, Available(acc.st));
    }
  }

  lemma SweepFrameStep(cfg: Config, st: ChannelState, acc: SweepState, out: set<Message>, m: Message, now: nat)
    requires SweepFramed(st, acc, out) && m in Elems(st.incoming)
    ensures var settled := |MissingEntries(m.causalHistory, Available(acc.st))| == 0 || TimedOut(cfg, acc.st, m, now);
            SweepFramed(st, SweepMessage(cfg, acc, m, now), out + if IsContent(m) && settled then {m} else {})
  {
    DeliveredFrame(cfg, acc.st, m);
    ElemsAppend(acc.buffer, [m]);
    assert Elems([m]) == {m};
    hide Delivered, Available, MissingEntries, DistinctIds, TimedOut;
  }

  /** What a sweep leaves of a participant's state and history. */
  lemma SweepFields(cfg: Config, c: Core, now: nat)
    ensures var r, out := CoreSweep(cfg, c, now), SweptOut(cfg, c.ch, |c.ch.incoming|, now);
            && r.hist == c.hist.(delivered := c.hist.delivered + out)
            && out <= Elems(c.ch.incoming) && (forall m :: m in out ==> IsContent(m))
            && Elems(r.ch.log) <= Elems(c.ch.log) + out && Elems(r.ch.incoming) <= Elems(c.ch.incoming)
            && r.ch == c.ch.(clock := r.ch.clock, log := r.ch.log, incoming := r.ch.incoming)
  {
    hide SweepFirst, SweptOut, DistinctIds;
    SweepFrame(cfg, c.ch, |c.ch.incoming|, now);
  }

  // The participant.

  datatype Task =
    | SendTask(payload: Bytes, hasCallback: bool)
    | ReceiveTask(message: Message)
    | SendEphemeralTask(payload: Bytes, hasCallback: bool)

  /** A call of `processTasks`: at the head of its loop, suspended at the callback
      of a send (of no consequence when the message is ephemeral), or returned. */
  datatype Loop = AtHead | Awaiting(message: Option<Message>) | Finished

  datatype Participant = Participant(core: Core, tasks: seq<Task>, loops: seq<Loop>, pushed: seq<Task>,
      started: seq<Task>)

  datatype Action =
    | Push(task: Task)
    | Spawn
    | Start(loop: nat, now: nat, hints: map<MessageId, Bytes>)
    | Resume(loop: nat, success: bool, now: nat)
    | SweepIncoming(now: nat)
    | SendSync(id: MessageId, now: nat, hints: map<MessageId, Bytes>)
    | SweepRepairs(now: nat)

  predicate Starts(p: Participant, a: Action) {
    a.Start? && a.loop < |p.loops| && p.loops[a.loop] == AtHead && |p.tasks| > 0
  }

  predicate Resumes(p: Participant, a: Action) {
    a.Resume? && a.loop < |p.loops| && p.loops[a.loop].Awaiting?
  }

  /** What an action does to the channel; nothing when it is not enabled. A
      callback that throws is one that reports failure. */
  function EffectOf(p: Participant, a: Action): Effect {
    match a
    case Start(i, now, hints) =>
      if !Starts(p, a) then Idle
      else (match p.tasks[0]
            case SendTask(payload, _) => Create(payload, now, hints)
            case ReceiveTask(m) => Receive(m, now)
            case SendEphemeralTask(_, _) => Idle)
    case Resume(i, success, now) =>
      if Resumes(p, a) && success && p.loops[i].message.Some? && IsContent(p.loops[i].message.value)
      then Commit(p.loops[i].message.value, now) else Idle
    case SweepIncoming(now) => Sweep(now)
    case SendSync(id, now, hints) => Sync(id, now, hints)
    case SweepRepairs(now) => AnswerRepairs(now)
    case _ => Idle
  }

  /** Where the loop stands after starting a task. */
  ghost function LoopAfter(cfg: Config, p: Participant, task: Task, now: nat, hints: map<MessageId, Bytes>): Loop {
    match task
    case SendTask(payload, hasCallback) =>
      if hasCallback then Awaiting(Some(ContentCreated(cfg, p.core.ch, payload, now, hints).1)) else AtHead
    case SendEphemeralTask(payload, hasCallback) =>
      if hasCallback && |payload| > 0 then Awaiting(None) else AtHead
    case ReceiveTask(_) => AtHead
  }

  /** An empty payload is refused when it is queued. */
  predicate Queueable(t: Task) {
    t.SendTask? ==> |t.payload| > 0
  }

  ghost function Step(cfg: Config, p: Participant, a: Action): (r: Participant)
    requires Shape(cfg, p.core.ch)
    ensures Shape(cfg, r.core.ch)
  {
    var core := Apply(cfg, p.core, EffectOf(p, a));
    match a
    case Push(t) => if Queueable(t) then p.(tasks := p.tasks + [t], pushed := p.pushed + [t]) else p
    case Spawn => p.(loops := p.loops + [AtHead])
    case Start(i, now, hints) =>
      if i >= |p.loops| || p.loops[i] != AtHead then p
      else if |p.tasks| == 0 then p.(loops := p.loops[i := Finished])
      else p.(core := core, tasks := p.tasks[1..], started := p.started + [p.tasks[0]],
              loops := p.loops[i := LoopAfter(cfg, p, p.tasks[0], now, hints)])
    case Resume(i, success, now) =>
      if Resumes(p, a) then p.(core := core, loops := p.loops[i := AtHead]) else p
    case _ => p.(core := core)
  }

  ghost function InitialCore(cfg: Config, now: nat, groups: nat): Core {
    Core(Initial(cfg, now, groups), History([], [], map[], {}, {}))
  }

  ghost function Init(cfg: Config, now: nat, groups: nat): Participant {
    Participant(InitialCore(cfg, now, groups), [], [], [], [])
  }

  ghost function Run(cfg: Config, now: nat, groups: nat, actions: seq<Action>): (r: Participant)
    requires cfg.Valid()
    ensures Shape(cfg, r.core.ch)
  {
    if |actions| == 0 then
      EmptyWellSized(cfg.filter);
      Init(cfg, now, groups)
    else Step(cfg, Run(cfg, now, groups, actions[..|actions| - 1]), actions[|actions| - 1])
  }

  lemma StepIsApply(cfg: Config, p: Participant, a: Action)
    requires Shape(cfg, p.core.ch)
    ensures Step(cfg, p, a).core == Apply(cfg, p.core, EffectOf(p, a))
  {
  }

  // Facts about every run, whatever is received.

  ghost function SentMessages(c: Core): set<Message> {
    set s | s in c.hist.sent :: s.message
  }

  lemma SentSnoc(c: Core, s: Sent, c': Core)
    requires c'.hist.sent == c.hist.sent + [s]
    ensures SentMessages(c') == SentMessages(c) + {s.message}
  {
    assert forall x :: x in c'.hist.sent <==> x in c.hist.sent || x == s;
  }

  /** Tasks are started once each, in the order they were queued. */
  ghost predicate QueueInv(p: Participant) {
    p.pushed == p.started + p.tasks
  }

  /** A suspended send holds a message built here; so does the outgoing buffer,
      once per id. */
  ghost predicate OwnInv(p: Participant) {
    && (forall i :: 0 <= i < |p.loops| && p.loops[i].Awaiting? && p.loops[i].message.Some? ==>
          p.loops[i].message.value in SentMessages(p.core))
    && OutgoingInv(p.core)
  }

  ghost predicate OutgoingInv(c: Core) {
    && Elems(c.ch.outgoing) <= SentMessages(c)
    && DistinctIds(c.ch.outgoing)
    && DistinctIds(c.ch.log)
  }

  lemma QueueStep(cfg: Config, p: Participant, a: Action)
    requires Shape(cfg, p.core.ch) && QueueInv(p)
    ensures QueueInv(Step(cfg, p, a))
  {
    if Starts(p, a) {
      assert p.tasks == [p.tasks[0]] + p.tasks[1..];
    }
  }

  /** Under every interleaving of the loops, each queued task is started exactly
      once and in queue order: what was queued is what was started followed by
      what is still queued. */
  lemma {:induction false} TasksStartInQueueOrder(cfg: Config, now: nat, groups: nat, actions: seq<Action>)
    requires cfg.Valid()
    ensures var p := Run(cfg, now, groups, actions); p.pushed == p.started + p.tasks
  {
    if |actions| > 0 {
      TasksStartInQueueOrder(cfg, now, groups, actions[..|actions| - 1]);
      QueueStep(cfg, Run(cfg, now, groups, actions[..|actions| - 1]), actions[|actions| - 1]);
    }
  }

  // The parts of the receiving step.

  /** Where each field of the channel comes from when a message is not ignored. */
  lemma ReceivedFields(cfg: Config, st: ChannelState, m: Message, now: nat)
    requires Shape(cfg, st) && !Ignored(cfg, st, m)
    ensures var r := Received(cfg, st, m, now);
            var review := ReviewAckStatus(cfg, st.outgoing, st.acks, m);
            && r.outgoing == review.0 && r.acks == review.1
            && r.filter == (if Parsed(cfg, m) && IsContent(m)
                            then Inserted(cfg.filter, st.filter, m.messageId) else st.filter)
            && (!Parsed(cfg, m) ==>
                  r.clock == st.clock && r.log == st.log && r.incoming == st.incoming && r.received == st.received
                  && r.repair == RepairOnReceive(cfg, st, m, now))
            && (Parsed(cfg, m) && EntryIds(m.causalHistory) <= Available(st) ==>
                  var d := Delivered(cfg, st, m);
                  r.clock == d.clock && r.log == d.log && r.incoming == st.incoming && r.received == st.received
                  && r.repair == RepairOnReceive(cfg, st, m, now))
            && (Parsed(cfg, m) && !(EntryIds(m.causalHistory) <= Available(st)) ==>
                  var quiet := RepairOnReceive(cfg, st, m, now);
                  r.clock == st.clock && r.log == st.log && r.incoming == st.incoming + [m]
                  && r.received == st.received[m.messageId := now]
                  && r.repair == if cfg.repairEnabled
                                 then quiet.(requests :=
                                   MarkMissing(cfg.repair, quiet.requests,
                                               MissingEntries(m.causalHistory, Available(st)), now))
                                 else quiet)
  {
    hide ReviewFilter, NotNamed, Inserted, RepairOnReceive, MarkMissing, Delivered, Available, Admitted, BytesToWords;
    var review := ReviewAckStatus(cfg, st.outgoing, st.acks, m);
    var reviewed := st.(repair := RepairOnReceive(cfg, st, m, now), outgoing := review.0, acks := review.1);
    var marked := if IsContent(m) then reviewed.(filter := Inserted(cfg.filter, st.filter, m.messageId)) else reviewed;
    if EntryIds(m.causalHistory) <= Available(st) {
      AdmittedNow(cfg, marked, st, m, now);
    } else {
      AdmittedLater(cfg, marked, st, m, now);
    }
  }

  /** Admitting reads no more of the state than the clock, the log, the incoming
      buffer and the reception times. */
  lemma AdmittedNow(cfg: Config, reviewed: ChannelState, st: ChannelState, m: Message, now: nat)
    requires cfg.Valid() && reviewed == st.(filter := reviewed.filter, outgoing := reviewed.outgoing,
                                            acks := reviewed.acks, repair := reviewed.repair)
    requires EntryIds(m.causalHistory) <= Available(st)
    ensures var d := Delivered(cfg, st, m); Admitted(cfg, reviewed, m, now) == reviewed.(clock := d.clock, log := d.log)
  {
    hide Pushed, MissingEntries, EntryIds, Ids;
    assert Available(reviewed) == Available(st);
    MissingEntriesExactly(m.causalHistory, Available(st));
  }

  lemma AdmittedLater(cfg: Config, reviewed: ChannelState, st: ChannelState, m: Message, now: nat)
    requires cfg.Valid() && reviewed == st.(filter := reviewed.filter, outgoing := reviewed.outgoing,
                                            acks := reviewed.acks, repair := reviewed.repair)
    requires !(EntryIds(m.causalHistory) <= Available(st))
    ensures var missing := MissingEntries(m.causalHistory, Available(st));
            var requests := MarkMissing(cfg.repair, reviewed.repair.requests, missing, now);
            Admitted(cfg, reviewed, m, now) ==
            reviewed.(incoming := st.incoming + [m],
                      received := st.received[m.messageId := now],
                      repair := if cfg.repairEnabled then reviewed.repair.(requests := requests) else reviewed.repair)
  {
    hide MarkMissing, MissingEntries, EntryIds, Delivered, Ids;
    assert Available(reviewed) == Available(st);
    MissingEntriesExactly(m.causalHistory, Available(st));
  }

  lemma {:induction false} NotNamedMembers(ms: seq<Message>, named: set<MessageId>)
    ensures forall m :: m in NotNamed(ms, named) <==> m in ms && m.messageId !in named
    ensures DistinctIds(ms) ==> DistinctIds(NotNamed(ms, named))
  {
    if |ms| > 0 {
      var p, l := ms[..|ms| - 1], ms[|ms| - 1];
      assert ms == p + [l];
      NotNamedMembers(p, named);
      IdsSnoc(p, l);
      IdsSnoc(NotNamed(p, named), l);
    }
  }

  lemma {:induction false} ReviewFilterShape(cfg: Config, words: seq<nat>, ms: seq<Message>, acks: map<MessageId, nat>)
    ensures forall m :: m in ReviewFilter(cfg, words, ms, acks).0 ==> m in ms
    ensures DistinctIds(ms) ==> DistinctIds(ReviewFilter(cfg, words, ms, acks).0)
  {
    if |ms| > 0 {
      var p, l := ms[..|ms| - 1], ms[|ms| - 1];
      assert ms == p + [l];
      ReviewFilterShape(cfg, words, p, acks);
      var kept := ReviewFilter(cfg, words, p, acks).0;
      IdsSnoc(p, l);
      IdsSnoc(kept, l);
      assert forall x :: x in Ids(kept) ==> x in Ids(p);
    }
  }

  lemma ReviewShape(cfg: Config, outgoing: seq<Message>, acks: map<MessageId, nat>, m: Message)
    requires cfg.Valid()
    ensures Elems(ReviewAckStatus(cfg, outgoing, acks, m).0) <= Elems(outgoing)
    ensures DistinctIds(outgoing) ==> DistinctIds(ReviewAckStatus(cfg, outgoing, acks, m).0)
  {
    var unnamed := NotNamed(outgoing, EntryIds(m.causalHistory));
    NotNamedMembers(outgoing, EntryIds(m.causalHistory));
    if m.bloomFilter.Some? {
      var words := BytesToWords(m.bloomFilter.value, cfg.filter.NumWords());
      if words.Success? {
        ReviewFilterShape(cfg, words.value, unnamed, acks);
      }
    }
  }

  /** A commit is only ever of a message built here. */
  ghost predicate Legal(c: Core, e: Effect) {
    && (e.Commit? ==> e.message in SentMessages(c) && IsContent(e.message))
    && (e.Create? ==> |e.payload| > 0)
  }

  lemma OutgoingStep(cfg: Config, c: Core, e: Effect)
    requires Shape(cfg, c.ch) && OutgoingInv(c)
    ensures OutgoingInv(Apply(cfg, c, e))
    ensures SentMessages(c) <= SentMessages(Apply(cfg, c, e))
  {
    var c' := Apply(cfg, c, e);
    match e
    case Create(payload, now, hints) =>
      if cfg.messageIdOf(payload) !in Ids(c.ch.outgoing) {
        var s := c'.hist.sent[|c.hist.sent|];
        SentSnoc(c, s, c');
        IdsSnoc(c.ch.outgoing, s.message);
      }
    case Commit(m, now) => PushShape(c.ch.log, [m], cfg.maxLength);
    case Receive(m, now) =>
      if !Ignored(cfg, c.ch, m) {
        ReceivedFields(cfg, c.ch, m, now);
        ReviewShape(cfg, c.ch.outgoing, c.ch.acks, m);
        PushShape(c.ch.log, [m], cfg.maxLength);
      }
    case Sweep(now) => SweepFrame(cfg, c.ch, |c.ch.incoming|, now);
    case Sync(id, now, hints) =>
      if |c'.hist.sent| > |c.hist.sent| {
        SentSnoc(c, c'.hist.sent[|c.hist.sent|], c');
      }
    case _ =>
  }

  lemma CreatedIsSent(cfg: Config, c: Core, payload: Bytes, now: nat, hints: map<MessageId, Bytes>)
    requires Shape(cfg, c.ch) && OutgoingInv(c)
    ensures ContentCreated(cfg, c.ch, payload, now, hints).1 in SentMessages(CoreCreate(cfg, c, payload, now, hints))
  {
    var c' := CoreCreate(cfg, c, payload, now, hints);
    var m := ContentCreated(cfg, c.ch, payload, now, hints).1;
    if cfg.messageIdOf(payload) in Ids(c.ch.outgoing) {
      assert m in Elems(c.ch.outgoing);
    } else {
      SentSnoc(c, c'.hist.sent[|c.hist.sent|], c');
    }
  }

  ghost predicate TasksQueueable(p: Participant) {
    forall t :: t in p.tasks ==> Queueable(t)
  }

  lemma OwnStep(cfg: Config, p: Participant, a: Action)
    requires Shape(cfg, p.core.ch) && OwnInv(p) && TasksQueueable(p)
    ensures OwnInv(Step(cfg, p, a)) && TasksQueueable(Step(cfg, p, a))
    ensures Legal(p.core, EffectOf(p, a))
  {
    StepIsApply(cfg, p, a);
    OutgoingStep(cfg, p.core, EffectOf(p, a));
    if Starts(p, a) {
      assert p.tasks[0] in p.tasks;
      if p.tasks[0].SendTask? {
        CreatedIsSent(cfg, p.core, p.tasks[0].payload, a.now, a.hints);
      }
    }
    hide Apply, SentMessages, OutgoingInv, ContentCreated;
  }

  lemma {:induction false} OwnRun(cfg: Config, now: nat, groups: nat, actions: seq<Action>)
    requires cfg.Valid()
    ensures OwnInv(Run(cfg, now, groups, actions)) && TasksQueueable(Run(cfg, now, groups, actions))
  {
    if |actions| > 0 {
      OwnRun(cfg, now, groups, actions[..|actions| - 1]);
      OwnStep(cfg, Run(cfg, now, groups, actions[..|actions| - 1]), actions[|actions| - 1]);
    }
  }

  // Assumptions about a run, where a property needs one.

  /** Sync ids carry a prefix that no hexadecimal content id has. */
  predicate IsSyncId(id: MessageId) {
    "sync-" <= id
  }

  ghost predicate HexIds(cfg: Config) {
    forall payload :: !IsSyncId(cfg.messageIdOf(payload))
  }

  /** Sync ids are for sync messages, and only content messages are depended upon. */
  predicate NamesContentOnly(m: Message) {
    && (IsContent(m) ==> !IsSyncId(m.messageId))
    && (IsSync(m) ==> IsSyncId(m.messageId))
    && (forall e :: e in m.causalHistory ==> !IsSyncId(e.messageId))
  }

  predicate NamesItself(m: Message) {
    m.messageId in EntryIds(m.causalHistory)
  }

  /** A message as participants build them. */
  predicate WellFormed(m: Message) {
    NamesContentOnly(m) && !NamesItself(m)
  }

  /** The messages a step would push onto the log. */
  ghost function Arriving(cfg: Config, c: Core, e: Effect): set<Message> {
    match e
    case Commit(m, _) => {m}
    case Receive(m, _) => if !Ignored(cfg, c.ch, m) && DeliveredAtOnce(cfg, c.ch, m) then {m} else {}
    case Sweep(now) =>
      set m | m in c.ch.incoming && IsContent(m) &&
              (EntryIds(m.causalHistory) <= Available(c.ch) || TimedOut(cfg, c.ch, m, now))
    case _ => {}
  }

  function IdsOf(ms: set<Message>): set<MessageId> {
    set m | m in ms :: m.messageId
  }

  /** What may be asked of every effect of a run. `Unstale`: a message is built
      only when no possible-acknowledgement count is left under its id.
      `SelfFree`: what is received does not name itself. `ContentNamed`: what is
      received names only content messages. `Untruncated`: the ids in the log and
      those the step brings, counted once each, fit. `Identified`: what is
      delivered is determined by its id. */
  datatype Rule = Unstale | SelfFree | ContentNamed | Untruncated | Identified

  ghost predicate Meets(rule: Rule, cfg: Config, c: Core, e: Effect)
    requires Shape(cfg, c.ch)
  {
    match rule
    case Unstale =>
      e.Create? && cfg.messageIdOf(e.payload) !in Ids(c.ch.outgoing) ==> cfg.messageIdOf(e.payload) !in c.ch.acks
    case SelfFree => e.Receive? ==> !NamesItself(e.message)
    case ContentNamed => e.Receive? ==> NamesContentOnly(e.message)
    case Untruncated => |Ids(c.ch.log) + IdsOf(Arriving(cfg, c, e))| <= cfg.maxLength
    case Identified => IdDetermines(Apply(cfg, c, e).hist.delivered)
  }

  ghost predicate RunMeets(rule: Rule, cfg: Config, now: nat, groups: nat, actions: seq<Action>)
    requires cfg.Valid()
  {
    |actions| == 0 ||
    var before := Run(cfg, now, groups, actions[..|actions| - 1]);
    && RunMeets(rule, cfg, now, groups, actions[..|actions| - 1])
    && Meets(rule, cfg, before.core, EffectOf(before, actions[|actions| - 1]))
  }
}
