/** Any number of participants over a network that may lose, duplicate and reorder
    what they send. The network is the set of messages ever built: losing one is
    never receiving it, duplicating is receiving it again, reordering is free
    choice. */
module Network {
  import opened Basics
  import opened Messages
  import opened Bloom
  import opened LocalHistory
  import opened RepairBuffers
  import opened Channel
  import opened Participant
  import Clocks
  import KnownIds
  import Acknowledgements
  import Closure
  import RepairRequests
  import Convergence
  import Repair
  import RepairAnswers
  import Reception

  datatype Setup = Setup(cfgs: seq<Config>, clocks: seq<nat>, groups: nat) {
    ghost predicate Valid() {
      && |cfgs| == |clocks|
      && (forall i :: 0 <= i < |cfgs| ==> cfgs[i].Valid() && HexIds(cfgs[i]))
      && (forall i, j :: 0 <= i < |cfgs| && 0 <= j < |cfgs| ==> cfgs[i].filter == cfgs[j].filter)
    }
  }

  datatype Move = Move(who: nat, action: Action)

  type Net = seq<Participant>

  ghost function Circulating(net: Net): set<Message> {
    set i, m | 0 <= i < |net| && m in SentMessages(net[i].core) :: m
  }

  /** Only what somebody built can be received. */
  ghost predicate Allowed(net: Net, a: Action) {
    a.Push? && a.task.ReceiveTask? ==> a.task.message in Circulating(net)
  }

  ghost predicate Shaped(setup: Setup, net: Net) {
    setup.Valid() && |net| == |setup.cfgs| && forall i :: 0 <= i < |net| ==> Shape(setup.cfgs[i], net[i].core.ch)
  }

  ghost function NetStep(setup: Setup, net: Net, move: Move): (r: Net)
    requires Shaped(setup, net)
    ensures Shaped(setup, r)
  {
    if move.who < |net| && Allowed(net, move.action)
    then net[move.who := Step(setup.cfgs[move.who], net[move.who], move.action)]
    else net
  }

  ghost function NetRun(setup: Setup, moves: seq<Move>): (r: Net)
    requires setup.Valid()
    ensures Shaped(setup, r)
  {
    if |moves| == 0 then
      seq(|setup.cfgs|, i requires 0 <= i < |setup.cfgs| && setup.Valid() =>
        Run(setup.cfgs[i], setup.clocks[i], setup.groups, []))
    else NetStep(setup, NetRun(setup, moves[..|moves| - 1]), moves[|moves| - 1])
  }

  // Each participant's share of a network run is a run of its own.

  ghost function Local(setup: Setup, moves: seq<Move>, i: nat): seq<Action>
    requires setup.Valid()
  {
    if |moves| == 0 then []
    else
      var p, last := moves[..|moves| - 1], moves[|moves| - 1];
      Local(setup, p, i) + if last.who == i && Allowed(NetRun(setup, p), last.action) then [last.action] else []
  }

  ghost function LocalRun(setup: Setup, moves: seq<Move>, i: nat): Participant
    requires setup.Valid() && i < |setup.cfgs|
  {
    Run(setup.cfgs[i], setup.clocks[i], setup.groups, Local(setup, moves, i))
  }

  lemma {:induction false} NetRunIsLocal(setup: Setup, moves: seq<Move>, i: nat)
    requires setup.Valid() && i < |setup.cfgs|
    ensures NetRun(setup, moves)[i] == LocalRun(setup, moves, i)
  {
    if |moves| > 0 {
      var p, last := moves[..|moves| - 1], moves[|moves| - 1];
      NetRunIsLocal(setup, p, i);
      if last.who == i && Allowed(NetRun(setup, p), last.action) {
        var here := Local(setup, p, i);
        assert (here + [last.action])[..|here|] == here;
      } else {
        assert Local(setup, p, i) + [] == Local(setup, p, i);
      }
    }
  }

  // What honest participants do.

  ghost function ContentIds(ms: set<Message>): set<MessageId> {
    set m | m in ms && IsContent(m) :: m.messageId
  }

  /** Payloads are not reused: a content message is built only under an id none in
      circulation has, so a resend is a retry of an unacknowledged message. And
      sync messages are given sync ids. */
  ghost predicate Honest(setup: Setup, net: Net, move: Move)
    requires Shaped(setup, net) && move.who < |net|
  {
    var p := net[move.who];
    var e := EffectOf(p, move.action);
    && (e.Create? && setup.cfgs[move.who].messageIdOf(e.payload) !in Ids(p.core.ch.outgoing) ==>
          setup.cfgs[move.who].messageIdOf(e.payload) !in ContentIds(Circulating(net)))
    && (e.Sync? ==> IsSyncId(e.id))
  }

  ghost predicate HonestRun(setup: Setup, moves: seq<Move>)
    requires setup.Valid()
  {
    |moves| == 0 ||
    var p, last := moves[..|moves| - 1], moves[|moves| - 1];
    HonestRun(setup, p) && (last.who < |setup.cfgs| ==> Honest(setup, NetRun(setup, p), last))
  }

  // The global invariant.

  /** All a channel holds is in circulation. */
  ghost predicate CoreHolds(c: Core, circ: set<Message>) {
    && Elems(c.ch.log) <= circ
    && Elems(c.ch.incoming) <= circ
    && Elems(c.hist.reviewed) <= circ
    && (forall s :: s in c.hist.sent ==> AllContent(Elems(s.causes), circ))
    && AllContent(c.hist.delivered, circ)
    && c.ch.acks.Keys <= ContentIds(SentMessages(c))
    && (forall m :: m in c.ch.outgoing ==> IsContent(m))
  }

  ghost predicate AllContent(ms: set<Message>, circ: set<Message>) {
    ms <= circ && forall m :: m in ms ==> IsContent(m)
  }

  ghost predicate HoldsCirculating(p: Participant, circ: set<Message>) {
    (forall t :: t in p.tasks && t.ReceiveTask? ==> t.message in circ) && CoreHolds(p.core, circ)
  }

  ghost predicate ContentUnique(circ: set<Message>) {
    forall a, b :: a in circ && b in circ && IsContent(a) && IsContent(b) && a.messageId == b.messageId ==> a == b
  }

  ghost predicate NetInv(setup: Setup, net: Net) {
    && |net| == |setup.cfgs|
    && (forall i :: 0 <= i < |net| ==> HoldsCirculating(net[i], Circulating(net)))
    && ContentUnique(Circulating(net))
    && (forall m :: m in Circulating(net) ==> WellFormed(m))
  }

  lemma CirculatingAfter(setup: Setup, net: Net, i: nat, p: Participant)
    requires i < |net| && SentMessages(net[i].core) <= SentMessages(p.core)
    ensures Circulating(net[i := p]) == Circulating(net) + SentMessages(p.core)
  {
    var after := net[i := p];
    forall m ensures m in Circulating(after) <==> m in Circulating(net) + SentMessages(p.core) {
      if m in Circulating(net) {
        var j :| 0 <= j < |net| && m in SentMessages(net[j].core);
        assert m in SentMessages(after[j].core);
      }
      if m in SentMessages(p.core) {
        assert m in SentMessages(after[i].core);
      }
    }
  }

  lemma HoldsMore(p: Participant, circ: set<Message>, more: set<Message>)
    requires HoldsCirculating(p, circ) && circ <= more
    ensures HoldsCirculating(p, more)
  {
  }

  /** One message more: what building adds to circulation is well formed and
      unique. */
  lemma BuiltWellFormed(cfg: Config, c: Core, e: Effect, circ: set<Message>, m: Message)
    requires Shape(cfg, c.ch) && HexIds(cfg) && Legal(c, e)
    requires Clocks.ClockInv(c) && Elems(c.ch.log) <= circ && SentMessages(c) <= circ
    requires ContentUnique(circ) && forall x :: x in circ ==> WellFormed(x)
    requires e.Create? && cfg.messageIdOf(e.payload) !in Ids(c.ch.outgoing) ==>
              cfg.messageIdOf(e.payload) !in ContentIds(circ)
    requires e.Sync? ==> IsSyncId(e.id)
    requires m in SentMessages(Apply(cfg, c, e)) && m !in SentMessages(c)
    ensures WellFormed(m)
    ensures IsContent(m) ==> m.messageId !in ContentIds(circ)
    ensures SentMessages(Apply(cfg, c, e)) == SentMessages(c) + {m}
  {
    var c' := Apply(cfg, c, e);
    assert |c'.hist.sent| > |c.hist.sent|;
    var s := c'.hist.sent[|c.hist.sent|];
    SentSnoc(c, s, c');
    assert s.message == m;
    forall h | h in m.causalHistory ensures !IsSyncId(h.messageId) && h.messageId in ContentIds(circ) {
      assert h.messageId in Ids(Recent(c.ch.log, cfg.causalHistorySize));
      var x :| x in Recent(c.ch.log, cfg.causalHistorySize) && x.messageId == h.messageId;
      assert x in Elems(c.ch.log);
    }
    assert m.messageId !in EntryIds(m.causalHistory);
  }

  lemma {:induction false} ReviewFilterAckKeys(cfg: Config, words: seq<nat>, ms: seq<Message>,
                                                 acks: map<MessageId, nat>)
    ensures ReviewFilter(cfg, words, ms, acks).1.Keys <= acks.Keys + Ids(ms)
  {
    if |ms| > 0 {
      var p, l := ms[..|ms| - 1], ms[|ms| - 1];
      ReviewFilterAckKeys(cfg, words, p, acks);
      assert ms == p + [l];
      IdsSnoc(p, l);
    }
  }

  lemma ReviewAckKeys(cfg: Config, outgoing: seq<Message>, acks: map<MessageId, nat>, m: Message)
    requires cfg.Valid()
    ensures ReviewAckStatus(cfg, outgoing, acks, m).1.Keys <= acks.Keys + Ids(outgoing)
  {
    var unnamed := NotNamed(outgoing, EntryIds(m.causalHistory));
    NotNamedMembers(outgoing, EntryIds(m.causalHistory));
    if m.bloomFilter.Some? {
      var words := BytesToWords(m.bloomFilter.value, cfg.filter.NumWords());
      if words.Success? {
        ReviewFilterAckKeys(cfg, words.value, unnamed, acks);
        assert Ids(unnamed) <= Ids(outgoing);
      }
    }
  }

  /** A step of one participant, on messages in circulation, leaves it holding
      messages in circulation. */
  lemma HoldsStep(cfg: Config, p: Participant, a: Action, circ: set<Message>)
    requires Shape(cfg, p.core.ch) && HoldsCirculating(p, circ) && OwnInv(p) && TasksQueueable(p)
    requires Clocks.ClockInv(p.core)
    requires a.Push? && a.task.ReceiveTask? ==> a.task.message in circ
    ensures HoldsCirculating(Step(cfg, p, a), circ + SentMessages(Step(cfg, p, a).core))
  {
    var after := Step(cfg, p, a);
    var circ' := circ + SentMessages(after.core);
    StepIsApply(cfg, p, a);
    OwnStep(cfg, p, a);
    var e := EffectOf(p, a);
    OutgoingStep(cfg, p.core, e);
    forall t | t in after.tasks && t.ReceiveTask? ensures t.message in circ' {
      if t !in p.tasks { assert a.Push? && t == a.task; }
    }
    if e.Receive? { assert p.tasks[0] in p.tasks; }
    HoldsApply(cfg, p.core, e, circ);
    hide CoreHolds, Apply, OwnInv;
  }

  lemma HoldsApply(cfg: Config, c: Core, e: Effect, circ: set<Message>)
    requires Shape(cfg, c.ch) && CoreHolds(c, circ) && OutgoingInv(c) && Clocks.LogClock(c) && Legal(c, e)
    requires e.Receive? ==> e.message in circ
    ensures CoreHolds(Apply(cfg, c, e), circ + SentMessages(Apply(cfg, c, e)))
  {
    hide CoreHolds, SentMessages, OutgoingInv;
    match e
    case Create(payload, now, hints) => BuiltHolds(cfg, c, e, circ);
    case Sync(id, now, hints) => BuiltHolds(cfg, c, e, circ);
    case Commit(m, now) => CommitHolds(cfg, c, m, now, circ);
    case Receive(m, now) =>
      if Ignored(cfg, c.ch, m) {
        CoreHoldsMore(c, circ, circ + SentMessages(c));
      } else {
        ReceiveHolds(cfg, c, m, now, circ);
        CoreHoldsMore(CoreReceive(cfg, c, m, now), circ, circ + SentMessages(CoreReceive(cfg, c, m, now)));
      }
    case Sweep(now) =>
      SweepHolds(cfg, c, now, circ);
      CoreHoldsMore(CoreSweep(cfg, c, now), circ, circ + SentMessages(CoreSweep(cfg, c, now)));
    case AnswerRepairs(now) => AnswerHolds(cfg, c, now, circ);
    case Idle => CoreHoldsMore(c, circ, circ + SentMessages(c));
  }

  lemma CoreHoldsMore(c: Core, circ: set<Message>, more: set<Message>)
    requires CoreHolds(c, circ) && circ <= more
    ensures CoreHolds(c, more)
  {
  }

  lemma AnswerHolds(cfg: Config, c: Core, now: nat, circ: set<Message>)
    requires Shape(cfg, c.ch) && CoreHolds(c, circ)
    ensures var c' := Apply(cfg, c, AnswerRepairs(now)); CoreHolds(c', circ + SentMessages(c'))
  {
  }

  lemma BuiltHolds(cfg: Config, c: Core, e: Effect, circ: set<Message>)
    requires Shape(cfg, c.ch) && CoreHolds(c, circ) && OutgoingInv(c) && Clocks.LogClock(c) && Legal(c, e)
    requires e.Create? || e.Sync?
    ensures CoreHolds(Apply(cfg, c, e), circ + SentMessages(Apply(cfg, c, e)))
  {
    var c' := Apply(cfg, c, e);
    OutgoingStep(cfg, c, e);
    if |c'.hist.sent| > |c.hist.sent| {
      var s := c'.hist.sent[|c.hist.sent|];
      assert c'.hist.sent == c.hist.sent + [s];
      assert forall m :: m in s.causes ==> m in c.ch.log;
      assert Elems(s.causes) <= Elems(c.ch.log);
    }
    hide SentMessages, Recent;
  }

  lemma CommitHolds(cfg: Config, c: Core, m: Message, now: nat, circ: set<Message>)
    requires Shape(cfg, c.ch) && CoreHolds(c, circ) && m in SentMessages(c) && IsContent(m)
    ensures var c' := CoreCommit(cfg, c, m, now); CoreHolds(c', circ + SentMessages(c'))
  {
    hide Pushed, ContentIds, DistinctIds, Ids;
    PushShape(c.ch.log, [m], cfg.maxLength);
    assert Elems([m]) == {m};
    var c' := CoreCommit(cfg, c, m, now);
    assert SentMessages(c') == SentMessages(c);
    hide SentMessages;
  }

  lemma SweepHolds(cfg: Config, c: Core, now: nat, circ: set<Message>)
    requires Shape(cfg, c.ch) && CoreHolds(c, circ)
    ensures CoreHolds(CoreSweep(cfg, c, now), circ)
  {
    SweepFields(cfg, c, now);
    hide CoreSweep;
    assert SentMessages(CoreSweep(cfg, c, now)) == SentMessages(c);
  }

  lemma ReceiveHolds(cfg: Config, c: Core, m: Message, now: nat, circ: set<Message>)
    requires Shape(cfg, c.ch) && CoreHolds(c, circ) && OutgoingInv(c) && m in circ && !Ignored(cfg, c.ch, m)
    ensures CoreHolds(CoreReceive(cfg, c, m, now), circ)
  {
    ReceiveHoldsMessages(cfg, c, m, now, circ);
    ReceiveHoldsAcks(cfg, c, m, now);
    hide CoreReceive, ContentIds, SentMessages, AllContent;
  }

  lemma ReceiveHoldsMessages(cfg: Config, c: Core, m: Message, now: nat, circ: set<Message>)
    requires Shape(cfg, c.ch) && m in circ && !Ignored(cfg, c.ch, m)
    requires Elems(c.ch.log) <= circ && Elems(c.ch.incoming) <= circ && Elems(c.hist.reviewed) <= circ
    requires AllContent(c.hist.delivered, circ)
    ensures var c' := CoreReceive(cfg, c, m, now);
            && Elems(c'.ch.log) <= circ && Elems(c'.ch.incoming) <= circ && Elems(c'.hist.reviewed) <= circ
            && AllContent(c'.hist.delivered, circ)
            && c'.hist.sent == c.hist.sent
  {
    ReceivedFields(cfg, c.ch, m, now);
    DeliveredFrame(cfg, c.ch, m);
    ElemsAppend(c.ch.incoming, [m]);
    ElemsAppend(c.hist.reviewed, [m]);
    assert Elems([m]) == {m};
    hide Received, ReviewAckStatus, Delivered, Available, Parsed, RepairOnReceive, DistinctIds, EntryIds, Ignored;
  }

  lemma ReceiveHoldsAcks(cfg: Config, c: Core, m: Message, now: nat)
    requires Shape(cfg, c.ch) && OutgoingInv(c) && !Ignored(cfg, c.ch, m)
    requires c.ch.acks.Keys <= ContentIds(SentMessages(c)) && forall x :: x in c.ch.outgoing ==> IsContent(x)
    ensures var c' := CoreReceive(cfg, c, m, now);
            && c'.ch.acks.Keys <= ContentIds(SentMessages(c')) && SentMessages(c') == SentMessages(c)
            && forall x :: x in c'.ch.outgoing ==> IsContent(x)
  {
    var c' := CoreReceive(cfg, c, m, now);
    ReceivedFields(cfg, c.ch, m, now);
    ReviewShape(cfg, c.ch.outgoing, c.ch.acks, m);
    ReviewAckKeys(cfg, c.ch.outgoing, c.ch.acks, m);
    hide Received, ReviewAckStatus, Delivered, Available, Parsed, RepairOnReceive, DistinctIds, EntryIds, Ignored;
    forall x | x in c'.ch.outgoing ensures IsContent(x) {
      assert x in Elems(c'.ch.outgoing);
      assert x in Elems(c.ch.outgoing);
    }
    forall id | id in c.ch.acks.Keys + Ids(c.ch.outgoing) ensures id in ContentIds(SentMessages(c)) {
      if id !in c.ch.acks {
        var x :| x in c.ch.outgoing && x.messageId == id;
        assert x in Elems(c.ch.outgoing);
      }
    }
    assert SentMessages(c') == SentMessages(c);
  }

  lemma {:induction false} InitiallyHolds(setup: Setup)
    requires setup.Valid()
    ensures NetInv(setup, NetRun(setup, []))
  {
  }

  lemma NetStepInv(setup: Setup, net: Net, move: Move)
    requires Shaped(setup, net) && NetInv(setup, net) && move.who < |net| && Allowed(net, move.action)
    requires Honest(setup, net, move)
    requires OwnInv(net[move.who]) && TasksQueueable(net[move.who]) && Clocks.ClockInv(net[move.who].core)
    ensures NetInv(setup, NetStep(setup, net, move))
    ensures Circulating(net) <= Circulating(NetStep(setup, net, move))
  {
    var i, circ := move.who, Circulating(net);
    var cfg, p, a := setup.cfgs[i], net[i], move.action;
    var e, after := EffectOf(p, a), Step(cfg, p, a);
    StepIsApply(cfg, p, a);
    OwnStep(cfg, p, a);
    OutgoingStep(cfg, p.core, e);
    HoldsStep(cfg, p, a, circ);
    CirculatingAfter(setup, net, i, after);
    var circ' := Circulating(NetStep(setup, net, move));
    forall m | m in circ' && m !in circ
      ensures WellFormed(m) && circ' == circ + {m} && (IsContent(m) ==> m.messageId !in ContentIds(circ))
    {
      assert SentMessages(p.core) <= circ;
      BuiltWellFormed(cfg, p.core, e, circ, m);
    }
    forall j | 0 <= j < |net| ensures HoldsCirculating(NetStep(setup, net, move)[j], circ') {
      if j != i { HoldsMore(net[j], circ, circ'); }
    }
    UniqueAfter(circ, circ');
  }

  lemma UniqueAfter(circ: set<Message>, circ': set<Message>)
    requires ContentUnique(circ) && circ <= circ'
    requires forall m :: m in circ' && m !in circ ==>
              circ' == circ + {m} && (IsContent(m) ==> m.messageId !in ContentIds(circ))
    ensures ContentUnique(circ')
  {
    forall a, b | a in circ' && b in circ' && IsContent(a) && IsContent(b) && a.messageId == b.messageId
      ensures a == b
    {
      assert a in circ ==> a.messageId in ContentIds(circ);
      assert b in circ ==> b.messageId in ContentIds(circ);
    }
  }

  lemma {:induction false} NetRunInv(setup: Setup, moves: seq<Move>)
    requires setup.Valid() && HonestRun(setup, moves)
    ensures NetInv(setup, NetRun(setup, moves))
  {
    if |moves| == 0 {
      InitiallyHolds(setup);
    } else {
      var p, last := moves[..|moves| - 1], moves[|moves| - 1];
      NetRunInv(setup, p);
      if last.who < |setup.cfgs| && Allowed(NetRun(setup, p), last.action) {
        NetRunIsLocal(setup, p, last.who);
        OwnRun(setup.cfgs[last.who], setup.clocks[last.who], setup.groups, Local(setup, p, last.who));
        Clocks.ClockBoundsEveryRun(setup.cfgs[last.who], setup.clocks[last.who], setup.groups,
            Local(setup, p, last.who));
        NetStepInv(setup, NetRun(setup, p), last);
      }
    }
  }

  // What is named, and by whom.

  /** No message in circulation names itself. */
  lemma NobodyNamesItself(setup: Setup, moves: seq<Move>, m: Message)
    requires setup.Valid() && HonestRun(setup, moves) && m in Circulating(NetRun(setup, moves))
    ensures !NamesItself(m)
  {
    NetRunInv(setup, moves);
  }

  /** Every id named belongs to a content message in circulation. */
  lemma NamedCirculate(setup: Setup, moves: seq<Move>, a: Message, id: MessageId)
    requires setup.Valid() && HonestRun(setup, moves)
    requires a in Circulating(NetRun(setup, moves)) && id in EntryIds(a.causalHistory)
    ensures exists b :: b in Circulating(NetRun(setup, moves)) && IsContent(b) && b.messageId == id
  {
    var net := NetRun(setup, moves);
    NetRunInv(setup, moves);
    var i :| 0 <= i < |net| && a in SentMessages(net[i].core);
    NetRunIsLocal(setup, moves, i);
    Clocks.ClockBoundsEveryRun(setup.cfgs[i], setup.clocks[i], setup.groups, Local(setup, moves, i));
    hide NetRun, HonestRun, Circulating, LocalRun, Run;
    var s :| s in net[i].core.hist.sent && s.message == a;
    assert Clocks.CausesEarlier(s);
    var x :| x in s.causes && x.messageId == id;
    assert HoldsCirculating(net[i], Circulating(net));
    assert x in Elems(s.causes);
  }

  // Acyclicity.

  /** `a` names `b` in its causal history. */
  predicate Names(a: Message, b: Message) {
    IsContent(b) && b.messageId in EntryIds(a.causalHistory)
  }

  /** In every honest run, whatever names a message is later than it. */
  lemma NamedIsEarlier(setup: Setup, moves: seq<Move>, a: Message, b: Message)
    requires setup.Valid() && HonestRun(setup, moves)
    requires a in Circulating(NetRun(setup, moves)) && b in Circulating(NetRun(setup, moves)) && Names(a, b)
    ensures a.lamportTimestamp.Some? && b.lamportTimestamp.Some?
    ensures b.lamportTimestamp.value < a.lamportTimestamp.value
  {
    var net := NetRun(setup, moves);
    NetRunInv(setup, moves);
    var i :| 0 <= i < |net| && a in SentMessages(net[i].core);
    NetRunIsLocal(setup, moves, i);
    Clocks.ClockBoundsEveryRun(setup.cfgs[i], setup.clocks[i], setup.groups, Local(setup, moves, i));
    hide NetRun, HonestRun, Circulating, LocalRun, Run;
    var s :| s in net[i].core.hist.sent && s.message == a;
    assert Clocks.CausesEarlier(s);
    var x :| x in s.causes && x.messageId == b.messageId;
    assert HoldsCirculating(net[i], Circulating(net));
    assert x in Elems(s.causes);
    assert x == b;
  }

  ghost predicate Path(path: seq<Message>, circ: set<Message>) {
    && (forall k :: 0 <= k < |path| ==> path[k] in circ)
    && (forall k :: 0 <= k < |path| - 1 ==> Names(path[k], path[k + 1]))
  }

  lemma {:induction false} PathDescends(setup: Setup, moves: seq<Move>, path: seq<Message>)
    requires setup.Valid() && HonestRun(setup, moves) && Path(path, Circulating(NetRun(setup, moves))) && |path| >= 2
    ensures path[0].lamportTimestamp.Some? && path[|path| - 1].lamportTimestamp.Some?
    ensures path[|path| - 1].lamportTimestamp.value < path[0].lamportTimestamp.value
  {
    hide NetRun, HonestRun, Circulating, Names;
    NamedIsEarlier(setup, moves, path[|path| - 2], path[|path| - 1]);
    if |path| > 2 {
      PathDescends(setup, moves, path[..|path| - 1]);
    }
  }

  /** The causal-dependency graph of all messages ever sent has no cycle. */
  lemma DependenciesAcyclic(setup: Setup, moves: seq<Move>, path: seq<Message>)
    requires setup.Valid() && HonestRun(setup, moves)
    requires Path(path, Circulating(NetRun(setup, moves))) && |path| >= 2
    ensures path[0] != path[|path| - 1]
  {
    PathDescends(setup, moves, path);
  }

  // Honesty discharges what the participant theorems ask of their input.

  lemma HonestMeets(rule: Rule, setup: Setup, net: Net, move: Move)
    requires rule != Untruncated && Shaped(setup, net) && NetInv(setup, net)
    requires move.who < |net| && Allowed(net, move.action) && Honest(setup, net, move)
    requires OwnInv(net[move.who]) && TasksQueueable(net[move.who]) && Clocks.ClockInv(net[move.who].core)
    ensures Meets(rule, setup.cfgs[move.who], net[move.who].core, EffectOf(net[move.who], move.action))
  {
    var i, p := move.who, net[move.who];
    var e, circ := EffectOf(p, move.action), Circulating(net);
    assert HoldsCirculating(p, circ);
    assert SentMessages(p.core) <= circ;
    match rule
    case Unstale =>
      if e.Create? && setup.cfgs[i].messageIdOf(e.payload) in p.core.ch.acks {
        assert ContentIds(SentMessages(p.core)) <= ContentIds(circ);
      }
    case SelfFree =>
      if e.Receive? { assert p.tasks[0] in p.tasks; }
    case ContentNamed =>
      if e.Receive? { assert p.tasks[0] in p.tasks; }
    case Identified =>
      NetStepInv(setup, net, move);
      StepIsApply(setup.cfgs[i], p, move.action);
      assert HoldsCirculating(NetStep(setup, net, move)[i], Circulating(NetStep(setup, net, move)));
  }

  lemma {:induction false} LocalMeets(rule: Rule, setup: Setup, moves: seq<Move>, i: nat)
    requires setup.Valid() && HonestRun(setup, moves) && i < |setup.cfgs| && rule != Untruncated
    ensures RunMeets(rule, setup.cfgs[i], setup.clocks[i], setup.groups, Local(setup, moves, i))
  {
    if |moves| > 0 {
      var p, last := moves[..|moves| - 1], moves[|moves| - 1];
      LocalMeets(rule, setup, p, i);
      if last.who == i && Allowed(NetRun(setup, p), last.action) {
        var here := Local(setup, p, i);
        assert (here + [last.action])[..|here|] == here;
        NetRunIsLocal(setup, p, i);
        NetRunInv(setup, p);
        OwnRun(setup.cfgs[i], setup.clocks[i], setup.groups, here);
        Clocks.ClockBoundsEveryRun(setup.cfgs[i], setup.clocks[i], setup.groups, here);
        HonestMeets(rule, setup, NetRun(setup, p), last);
      } else {
        assert Local(setup, p, i) + [] == Local(setup, p, i);
      }
    }
  }

  // Acknowledgement across nodes.

  /** Was this message built by somebody who had then processed the id? */
  ghost predicate Informed(net: Net, m: Message, id: MessageId) {
    exists j, s :: 0 <= j < |net| && s in net[j].core.hist.sent && s.message == m && id in s.knows
  }

  ghost function InformedHits(net: Net, reviewed: seq<Message>, from: nat, id: MessageId): nat {
    if |reviewed| <= from then 0
    else
      var hit := if Informed(net, reviewed[|reviewed| - 1], id) then 1 else 0;
      InformedHits(net, reviewed[..|reviewed| - 1], from, id) + hit
  }

  /** Whoever has processed an id sends filters that contain it, as read by anyone. */
  lemma InformedFilterHas(setup: Setup, moves: seq<Move>, i: nat, m: Message, id: MessageId)
    requires setup.Valid() && i < |setup.cfgs| && Informed(NetRun(setup, moves), m, id)
    ensures Acknowledgements.FilterHas(setup.cfgs[i], m, id)
  {
    var net := NetRun(setup, moves);
    var j, s :| 0 <= j < |net| && s in net[j].core.hist.sent && s.message == m && id in s.knows;
    NetRunIsLocal(setup, moves, j);
    KnownIds.KnownInEveryRun(setup.cfgs[j], setup.clocks[j], setup.groups, Local(setup, moves, j));
    assert KnownIds.CarriesKnown(setup.cfgs[j], s);
  }

  lemma {:induction false} InformedHitsCount(setup: Setup, moves: seq<Move>, i: nat, reviewed: seq<Message>,
      from: nat, id: MessageId)
    requires setup.Valid() && i < |setup.cfgs|
    ensures InformedHits(NetRun(setup, moves), reviewed, from, id) <=
            Acknowledgements.Hits(setup.cfgs[i], reviewed, from, id)
  {
    if |reviewed| > from {
      InformedHitsCount(setup, moves, i, reviewed[..|reviewed| - 1], from, id);
      if Informed(NetRun(setup, moves), reviewed[|reviewed| - 1], id) {
        InformedFilterHas(setup, moves, i, reviewed[|reviewed| - 1], id);
      }
    }
  }

  /** Acknowledgement completeness: in every honest run, a message is out of its
      author's outgoing buffer by the time the author has processed as many as
      `possibleAcksThreshold` messages built by participants that had processed
      it. */
  lemma AcknowledgedInTime(setup: Setup, moves: seq<Move>, i: nat, m: Message)
    requires setup.Valid() && HonestRun(setup, moves) && i < |setup.cfgs|
    requires m in NetRun(setup, moves)[i].core.ch.outgoing
    ensures var net := NetRun(setup, moves);
            var hist := net[i].core.hist;
            && m.messageId in hist.since
            && InformedHits(net, hist.reviewed, hist.since[m.messageId], m.messageId) <
               Max(1, setup.cfgs[i].possibleAcksThreshold)
  {
    var net := NetRun(setup, moves);
    NetRunIsLocal(setup, moves, i);
    LocalMeets(Unstale, setup, moves, i);
    Acknowledgements.AckRun(setup.cfgs[i], setup.clocks[i], setup.groups, Local(setup, moves, i));
    assert Acknowledgements.CountedExactly(setup.cfgs[i], net[i].core, m);
    InformedHitsCount(setup, moves, i, net[i].core.hist.reviewed, net[i].core.hist.since[m.messageId], m.messageId);
  }

  // The participant theorems, on the network.

  /** Participants that have delivered the same messages hold the same log. */
  lemma LogsConverge(setup: Setup, moves: seq<Move>, i: nat, j: nat)
    requires setup.Valid() && HonestRun(setup, moves) && i < |setup.cfgs| && j < |setup.cfgs|
    requires setup.cfgs[i].maxLength == setup.cfgs[j].maxLength
    requires NetRun(setup, moves)[i].core.hist.delivered == NetRun(setup, moves)[j].core.hist.delivered
    ensures NetRun(setup, moves)[i].core.ch.log == NetRun(setup, moves)[j].core.ch.log
  {
    NetRunIsLocal(setup, moves, i);
    NetRunIsLocal(setup, moves, j);
    LocalMeets(Identified, setup, moves, i);
    LocalMeets(Identified, setup, moves, j);
    Convergence.SameDeliveriesSameLog(setup.cfgs[i], setup.clocks[i], setup.groups, Local(setup, moves, i),
                                      setup.cfgs[j], setup.clocks[j], setup.groups, Local(setup, moves, j));
  }

  /** Every log is causally closed up to what waits in the incoming buffer. */
  lemma LogsCausallyClosed(setup: Setup, moves: seq<Move>, i: nat, m: Message, e: HistoryEntry)
    requires setup.Valid() && HonestRun(setup, moves) && i < |setup.cfgs|
    requires setup.cfgs[i].timeoutForLostMessagesMs == 0
    requires RunMeets(Untruncated, setup.cfgs[i], setup.clocks[i], setup.groups, Local(setup, moves, i))
    requires m in NetRun(setup, moves)[i].core.ch.log && e in m.causalHistory
    ensures var ch := NetRun(setup, moves)[i].core.ch;
            && (e.messageId in Ids(ch.log) || e.messageId in Ids(ch.incoming))
            && (ch.incoming == [] ==> e.messageId in Ids(ch.log))
  {
    NetRunIsLocal(setup, moves, i);
    LocalMeets(ContentNamed, setup, moves, i);
    Closure.LogCausallyClosed(setup.cfgs[i], setup.clocks[i], setup.groups, Local(setup, moves, i), m, e);
  }

  /** No participant asks for a message of another that it holds. */
  lemma NobodyAsksForWhatItHas(setup: Setup, moves: seq<Move>, i: nat, m: Message)
    requires setup.Valid() && HonestRun(setup, moves) && i < |setup.cfgs|
    requires var ch := NetRun(setup, moves)[i].core.ch; m in ch.log || m in ch.incoming
    requires m.senderId != setup.cfgs[i].senderId
    ensures m.messageId !in SlotIds(NetRun(setup, moves)[i].core.ch.repair.requests)
  {
    NetRunIsLocal(setup, moves, i);
    LocalMeets(SelfFree, setup, moves, i);
    RepairRequests.NeverAsksForWhatItHas(setup.cfgs[i], setup.clocks[i], setup.groups, Local(setup, moves, i), m);
  }

  /** A repair rebroadcast adds nothing to the network: it is a copy of a message
      already in circulation. */
  lemma RepairsAreInCirculation(setup: Setup, moves: seq<Move>, i: nat, now: nat, m: Message)
    requires setup.Valid() && HonestRun(setup, moves) && i < |setup.cfgs|
    requires var ch := NetRun(setup, moves)[i].core.ch; m in Repair.SweepResponses(ch.repair, ch.log, now).1
    ensures m in Circulating(NetRun(setup, moves))
  {
    var net := NetRun(setup, moves);
    NetRunInv(setup, moves);
    assert HoldsCirculating(net[i], Circulating(net));
    Repair.AnsweringMembers(RepairBuffers.Entries(RepairBuffers.ReadySlots(net[i].core.ch.repair.responses, now)),
        net[i].core.ch.log);
    assert m in Elems(net[i].core.ch.log);
  }

  /** And it answers a request in a message in circulation, sent by another. */
  lemma RepairsWereAskedFor(setup: Setup, moves: seq<Move>, i: nat, now: nat, m: Message)
    requires setup.Valid() && HonestRun(setup, moves) && i < |setup.cfgs|
    requires var ch := NetRun(setup, moves)[i].core.ch; m in Repair.SweepResponses(ch.repair, ch.log, now).1
    ensures var net := NetRun(setup, moves);
            exists s, r :: s in net[i].core.ch.repair.responses && s.entry.messageId == m.messageId && s.due <= now &&
                           r in Circulating(net) && RepairAnswers.AskedBy(setup.cfgs[i], setup.groups, s, r)
  {
    var net := NetRun(setup, moves);
    NetRunInv(setup, moves);
    NetRunIsLocal(setup, moves, i);
    assert HoldsCirculating(net[i], Circulating(net));
    RepairAnswers.RepairsWereAskedFor(
      setup.cfgs[i], setup.clocks[i], setup.groups, Local(setup, moves, i), now, m);
    var s, r :| s in net[i].core.ch.repair.responses && s.entry.messageId == m.messageId && s.due <= now &&
                r in net[i].core.hist.reviewed && RepairAnswers.AskedBy(setup.cfgs[i], setup.groups, s, r);
    assert r in Elems(net[i].core.hist.reviewed);
  }

  // Whose message it is, and where it goes.

  /** Every message in circulation is of some participant's channel and sender, and its
      content is under its own id. */
  lemma BuiltBySomebody(setup: Setup, moves: seq<Move>, m: Message)
    requires setup.Valid() && m in Circulating(NetRun(setup, moves))
    ensures exists i :: 0 <= i < |setup.cfgs| && Reception.Own(setup.cfgs[i], m)
  {
    var net := NetRun(setup, moves);
    var i :| 0 <= i < |net| && m in SentMessages(net[i].core);
    NetRunIsLocal(setup, moves, i);
    Reception.BuiltIsOwn(setup.cfgs[i], setup.clocks[i], setup.groups, Local(setup, moves, i), m);
    assert Reception.Own(setup.cfgs[i], m);
  }

  /** When participants share the hash, a content message anywhere, in circulation or in
      a log, carries exactly the content its id is the hash of. */
  lemma ContentMatchesId(setup: Setup, moves: seq<Move>, hash: Bytes -> MessageId, m: Message)
    requires setup.Valid() && (forall i :: 0 <= i < |setup.cfgs| ==> setup.cfgs[i].messageIdOf == hash)
    requires m in Circulating(NetRun(setup, moves)) && IsContent(m)
    ensures hash(m.content.value) == m.messageId
  {
    BuiltBySomebody(setup, moves, m);
    hide NetRun, Circulating;
    var i :| 0 <= i < |setup.cfgs| && Reception.Own(setup.cfgs[i], m);
  }

  lemma LoggedMatchesId(setup: Setup, moves: seq<Move>, hash: Bytes -> MessageId, i: nat, m: Message)
    requires setup.Valid() && (forall i :: 0 <= i < |setup.cfgs| ==> setup.cfgs[i].messageIdOf == hash)
    requires HonestRun(setup, moves) && i < |setup.cfgs| && m in NetRun(setup, moves)[i].core.ch.log
    ensures IsContent(m) && hash(m.content.value) == m.messageId
  {
    var net := NetRun(setup, moves);
    NetRunInv(setup, moves);
    NetRunIsLocal(setup, moves, i);
    Clocks.ClockBoundsEveryRun(setup.cfgs[i], setup.clocks[i], setup.groups, Local(setup, moves, i));
    assert HoldsCirculating(net[i], Circulating(net));
    assert m in Elems(net[i].core.ch.log);
    ContentMatchesId(setup, moves, hash, m);
  }

  /** Participants on different channels never hold each other's messages, nor a message
      in common. */
  lemma ChannelsApart(setup: Setup, moves: seq<Move>, i: nat, j: nat, m: Message)
    requires setup.Valid() && i < |setup.cfgs| && j < |setup.cfgs|
    requires setup.cfgs[i].channelId != setup.cfgs[j].channelId
    requires var ch := NetRun(setup, moves)[i].core.ch; m in ch.log || m in ch.incoming
    ensures var c := NetRun(setup, moves)[j].core;
            m !in SentMessages(c) && m !in c.ch.log && m !in c.ch.incoming && m !in c.hist.reviewed
  {
    NetRunIsLocal(setup, moves, i);
    NetRunIsLocal(setup, moves, j);
    Reception.OnlyThisChannel(setup.cfgs[i], setup.clocks[i], setup.groups, Local(setup, moves, i), m);
    var c := NetRun(setup, moves)[j].core;
    hide NetRun, Run;
    if m in SentMessages(c) {
      Reception.BuiltIsOwn(setup.cfgs[j], setup.clocks[j], setup.groups, Local(setup, moves, j), m);
    }
    if m in c.ch.log || m in c.ch.incoming || m in c.hist.reviewed {
      Reception.OnlyThisChannel(setup.cfgs[j], setup.clocks[j], setup.groups, Local(setup, moves, j), m);
    }
  }
}
