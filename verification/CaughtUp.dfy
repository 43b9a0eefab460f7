/** Participants that have caught up hold the same log, and nothing waits. */
module CaughtUp {
  import opened Basics
  import opened Messages
  import opened LocalHistory
  import opened Channel
  import opened Sweeping
  import opened Participant
  import opened Network
  import Clocks
  import Closure
  import Convergence

  // What has been processed stays available.

  ghost predicate KnownAvailable(c: Core) {
    forall x :: x in c.hist.known ==> !IsSyncId(x) && x in Available(c.ch)
  }

  lemma CommitKeepsKnown(cfg: Config, c: Core, m: Message, now: nat)
    requires Shape(cfg, c.ch) && Closure.ClosureInv(c) && KnownAvailable(c) && m in SentMessages(c) && IsContent(m)
    requires |Ids(c.ch.log) + {m.messageId}| <= cfg.maxLength
    ensures KnownAvailable(CoreCommit(cfg, c, m, now))
  {
    var s :| s in c.hist.sent && s.message == m;
    PushOneIds(c.ch.log, m, cfg.maxLength);
    hide Pushed, Ids;
  }

  lemma ReceiveKeepsKnown(cfg: Config, c: Core, m: Message, now: nat)
    requires Shape(cfg, c.ch) && Closure.ClosureInv(c) && KnownAvailable(c)
    requires NamesContentOnly(m) && !Ignored(cfg, c.ch, m)
    requires DeliveredAtOnce(cfg, c.ch, m) ==> |Ids(c.ch.log) + {m.messageId}| <= cfg.maxLength
    ensures KnownAvailable(CoreReceive(cfg, c, m, now))
  {
    ReceivedFields(cfg, c.ch, m, now);
    DeliveredFrame(cfg, c.ch, m);
    IdsSnoc(c.ch.incoming, m);
    if DeliveredAtOnce(cfg, c.ch, m) {
      DeliveredFits(cfg, c.ch, m);
    }
    hide Received, ReviewAckStatus, Delivered, Ids, DistinctIds, Ignored, EntryIds;
  }

  lemma SweepKeepsKnown(cfg: Config, c: Core, now: nat)
    requires Closure.ClosureInv(c) && KnownAvailable(c) && cfg.timeoutForLostMessagesMs == 0 && Roomy(cfg, c.ch)
    ensures KnownAvailable(CoreSweep(cfg, c, now))
  {
    AfterSweepAvailable(cfg, c.ch, now);
    hide Swept, Available, Roomy;
  }

  lemma KnownStep(cfg: Config, c: Core, e: Effect)
    requires Shape(cfg, c.ch) && cfg.timeoutForLostMessagesMs == 0
    requires Closure.ClosureInv(c) && KnownAvailable(c) && Legal(c, e)
    requires Meets(ContentNamed, cfg, c, e) && Meets(Untruncated, cfg, c, e)
    ensures KnownAvailable(Apply(cfg, c, e))
  {
    hide Closure.ClosureInv, Received, Swept, Committed, KnownAvailable, Ids;
    match e
    case Commit(m, now) =>
      Closure.OneId(m);
      CommitKeepsKnown(cfg, c, m, now);
    case Receive(m, now) =>
      Closure.OneId(m);
      if !Ignored(cfg, c.ch, m) { ReceiveKeepsKnown(cfg, c, m, now); }
    case Sweep(now) =>
      Closure.RoomToSweep(cfg, c, now);
      SweepKeepsKnown(cfg, c, now);
    case _ => SameKnown(cfg, c, e);
  }

  lemma SameKnown(cfg: Config, c: Core, e: Effect)
    requires Shape(cfg, c.ch) && KnownAvailable(c) && (e.Create? || e.Sync? || e.AnswerRepairs? || e.Idle?)
    ensures KnownAvailable(Apply(cfg, c, e))
  {
    hide Recent;
  }

  lemma {:induction false} KnownRun(cfg: Config, now: nat, groups: nat, actions: seq<Action>)
    requires cfg.Valid() && HexIds(cfg) && cfg.timeoutForLostMessagesMs == 0
    requires RunMeets(ContentNamed, cfg, now, groups, actions) && RunMeets(Untruncated, cfg, now, groups, actions)
    ensures KnownAvailable(Run(cfg, now, groups, actions).core)
  {
    if |actions| > 0 {
      var before, a := Run(cfg, now, groups, actions[..|actions| - 1]), actions[|actions| - 1];
      KnownRun(cfg, now, groups, actions[..|actions| - 1]);
      Closure.ClosureRun(cfg, now, groups, actions[..|actions| - 1]);
      OwnRun(cfg, now, groups, actions[..|actions| - 1]);
      OwnStep(cfg, before, a);
      StepIsApply(cfg, before, a);
      hide Closure.ClosureInv, KnownAvailable, Apply, Meets, OwnInv;
      KnownStep(cfg, before.core, EffectOf(before, a));
    }
  }

  // On the network.

  ghost function ContentOf(circ: set<Message>): set<Message> {
    set m | m in circ && IsContent(m)
  }

  /** Participant `i` has processed or committed every content message there is. */
  ghost predicate CaughtUp(net: Net, i: nat)
    requires i < |net|
  {
    forall m :: m in ContentOf(Circulating(net)) ==> m.messageId in net[i].core.hist.known
  }

  /** The run is one in which participant `i` neither gives up on dependencies nor
      truncates its log. */
  ghost predicate Patient(setup: Setup, moves: seq<Move>, i: nat)
    requires setup.Valid() && i < |setup.cfgs|
  {
    && setup.cfgs[i].timeoutForLostMessagesMs == 0
    && RunMeets(Untruncated, setup.cfgs[i], setup.clocks[i], setup.groups, Local(setup, moves, i))
  }

  /** Once caught up, all that is named is available. */
  lemma NothingIsMissing(setup: Setup, moves: seq<Move>, i: nat, m: Message)
    requires setup.Valid() && HonestRun(setup, moves) && i < |setup.cfgs| && Patient(setup, moves, i)
    requires CaughtUp(NetRun(setup, moves), i) && m in Circulating(NetRun(setup, moves))
    ensures EntryIds(m.causalHistory) <= Available(NetRun(setup, moves)[i].core.ch)
  {
    var net := NetRun(setup, moves);
    NetRunIsLocal(setup, moves, i);
    LocalMeets(ContentNamed, setup, moves, i);
    KnownRun(setup.cfgs[i], setup.clocks[i], setup.groups, Local(setup, moves, i));
    hide Run, RunMeets, NetRun, Available, Circulating;
    forall x | x in EntryIds(m.causalHistory) ensures x in Available(net[i].core.ch) {
      NamedCirculate(setup, moves, m, x);
      var b :| b in Circulating(net) && IsContent(b) && b.messageId == x;
      assert b in ContentOf(Circulating(net));
    }
  }

  /** Caught up and with nothing waiting, the log holds exactly the content messages
      in circulation, in key order. */
  lemma CaughtUpLog(setup: Setup, moves: seq<Move>, i: nat)
    requires setup.Valid() && HonestRun(setup, moves) && i < |setup.cfgs| && Patient(setup, moves, i)
    requires CaughtUp(NetRun(setup, moves), i) && NetRun(setup, moves)[i].core.ch.incoming == []
    ensures var net := NetRun(setup, moves);
            Elems(net[i].core.ch.log) == ContentOf(Circulating(net)) && StrictlySorted(net[i].core.ch.log)
  {
    var net, cfg := NetRun(setup, moves), setup.cfgs[i];
    var log, circ := net[i].core.ch.log, Circulating(NetRun(setup, moves));
    NetRunIsLocal(setup, moves, i);
    NetRunInv(setup, moves);
    LocalMeets(ContentNamed, setup, moves, i);
    LocalMeets(Identified, setup, moves, i);
    KnownRun(cfg, setup.clocks[i], setup.groups, Local(setup, moves, i));
    Convergence.TopRun(cfg, setup.clocks[i], setup.groups, Local(setup, moves, i));
    Clocks.ClockBoundsEveryRun(cfg, setup.clocks[i], setup.groups, Local(setup, moves, i));
    assert HoldsCirculating(net[i], circ);
    hide Run, RunMeets, NetRun, Circulating, HonestRun, Patient, StrictlySorted;
    LogIsContent(net[i].core, circ);
    forall m | m in ContentOf(circ) ensures m in Elems(log) {
      assert m.messageId in Ids(log);
      var x :| x in log && x.messageId == m.messageId;
      assert x in Elems(log);
    }
  }

  lemma LogIsContent(c: Core, circ: set<Message>)
    requires CoreHolds(c, circ) && Clocks.LogClock(c)
    ensures Elems(c.ch.log) <= ContentOf(circ)
  {
  }

  ghost function SweepBy(i: nat, now: nat): Move {
    Move(i, SweepIncoming(now))
  }

  /** A sweep is honest and builds nothing; it touches its participant only, and
      leaves what it has processed. */
  lemma SweepMove(setup: Setup, moves: seq<Move>, i: nat, now: nat)
    requires setup.Valid() && HonestRun(setup, moves) && i < |setup.cfgs|
    ensures var before, after := NetRun(setup, moves), NetRun(setup, moves + [SweepBy(i, now)]);
            && HonestRun(setup, moves + [SweepBy(i, now)])
            && after[i].core == CoreSweep(setup.cfgs[i], before[i].core, now)
            && (forall j :: 0 <= j < |before| && j != i ==> after[j] == before[j])
            && Circulating(after) == Circulating(before)
            && Local(setup, moves + [SweepBy(i, now)], i) == Local(setup, moves, i) + [SweepIncoming(now)]
            && (forall j: nat :: j < |setup.cfgs| && j != i ==>
                  Local(setup, moves + [SweepBy(i, now)], j) == Local(setup, moves, j))
            && (forall j :: 0 <= j < |before| ==> after[j].core.hist.known == before[j].core.hist.known)
  {
    var all, before := moves + [SweepBy(i, now)], NetRun(setup, moves);
    assert all[..|all| - 1] == moves;
    SweepIsStep(setup, moves, i, now);
    SweepIsLocal(setup, moves, i, now);
    SweepIsHonest(setup, moves, i, now);
    var p := Step(setup.cfgs[i], before[i], SweepIncoming(now));
    SweepFields(setup.cfgs[i], before[i].core, now);
    hide CoreSweep, Circulating, NetRun, HonestRun, Local, Step, SentMessages;
    KeepsSent(before[i].core, p.core);
    SameCirculation(before, i, p);
  }

  lemma KeepsSent(c: Core, c': Core)
    requires c'.hist.sent == c.hist.sent
    ensures SentMessages(c') == SentMessages(c)
  {
  }

  lemma SweepIsStep(setup: Setup, moves: seq<Move>, i: nat, now: nat)
    requires setup.Valid() && i < |setup.cfgs|
    ensures var before := NetRun(setup, moves);
            var p := Step(setup.cfgs[i], before[i], SweepIncoming(now));
            && NetRun(setup, moves + [SweepBy(i, now)]) == before[i := p]
            && p.core == CoreSweep(setup.cfgs[i], before[i].core, now)
  {
    hide Step, CoreSweep, Circulating, Allowed, Swept, Shape;
    NetRunUnfolds(setup, moves, SweepBy(i, now));
    SweepIsApply(setup.cfgs[i], NetRun(setup, moves)[i], now);
    SweepAllowed(NetRun(setup, moves), now);
  }

  lemma SweepAllowed(net: Net, now: nat)
    ensures Allowed(net, SweepIncoming(now))
  {
  }

  lemma NetRunUnfolds(setup: Setup, moves: seq<Move>, move: Move)
    requires setup.Valid()
    ensures NetRun(setup, moves + [move]) == NetStep(setup, NetRun(setup, moves), move)
  {
    hide NetStep, Shaped;
    assert (moves + [move])[..|moves|] == moves;
  }

  lemma SweepIsApply(cfg: Config, p: Participant, now: nat)
    requires Shape(cfg, p.core.ch)
    ensures Step(cfg, p, SweepIncoming(now)).core == CoreSweep(cfg, p.core, now)
  {
    hide CoreSweep;
    StepIsApply(cfg, p, SweepIncoming(now));
  }

  lemma SweepIsLocal(setup: Setup, moves: seq<Move>, i: nat, now: nat)
    requires setup.Valid() && i < |setup.cfgs|
    ensures Local(setup, moves + [SweepBy(i, now)], i) == Local(setup, moves, i) + [SweepIncoming(now)]
    ensures forall j: nat :: j < |setup.cfgs| && j != i ==>
              Local(setup, moves + [SweepBy(i, now)], j) == Local(setup, moves, j)
  {
    hide NetRun, Circulating;
    var all := moves + [SweepBy(i, now)];
    assert all[..|all| - 1] == moves;
  }

  lemma SweepIsHonest(setup: Setup, moves: seq<Move>, i: nat, now: nat)
    requires setup.Valid() && HonestRun(setup, moves) && i < |setup.cfgs|
    ensures HonestRun(setup, moves + [SweepBy(i, now)])
  {
    hide NetRun, Circulating;
    var all := moves + [SweepBy(i, now)];
    assert all[..|all| - 1] == moves;
  }

  lemma SameCirculation(net: Net, i: nat, p: Participant)
    requires i < |net| && SentMessages(p.core) == SentMessages(net[i].core)
    ensures Circulating(net[i := p]) == Circulating(net)
  {
    CirculatingAfter(Setup([], [], 0), net, i, p);
    assert SentMessages(net[i].core) <= Circulating(net);
  }

  /** One sweep after catching up empties the incoming buffer. */
  lemma SweepEmpties(setup: Setup, moves: seq<Move>, i: nat, now: nat)
    requires setup.Valid() && HonestRun(setup, moves) && i < |setup.cfgs|
    requires Patient(setup, moves + [SweepBy(i, now)], i) && CaughtUp(NetRun(setup, moves), i)
    ensures NetRun(setup, moves + [SweepBy(i, now)])[i].core.ch.incoming == []
  {
    var net, cfg := NetRun(setup, moves), setup.cfgs[i];
    var c := net[i].core;
    NetRunIsLocal(setup, moves, i);
    NetRunInv(setup, moves);
    SweepMove(setup, moves, i, now);
    PatientBefore(setup, moves, i, now);
    OwnRun(cfg, setup.clocks[i], setup.groups, Local(setup, moves, i));
    assert HoldsCirculating(net[i], Circulating(net));
    hide Run, RunMeets, NetRun, HonestRun, Patient, CaughtUp, Circulating, Roomy, Available;
    Closure.RoomToSweep(cfg, c, now);
    SweepReachesFixpoint(cfg, c.ch, now, now);
    forall m | m in c.ch.incoming ensures EntryIds(m.causalHistory) <= Available(c.ch) {
      assert m in Elems(c.ch.incoming);
      NothingIsMissing(setup, moves, i, m);
    }
    NothingWaits(c.ch.incoming, Available(c.ch));
  }

  lemma {:induction false} NothingWaits(ms: seq<Message>, have: set<MessageId>)
    requires forall m :: m in ms ==> EntryIds(m.causalHistory) <= have
    ensures Waiting(ms, have) == []
  {
    if |ms| > 0 {
      assert ms[|ms| - 1] in ms;
      NothingWaits(ms[..|ms| - 1], have);
    }
  }

  /** Patience up to and including a sweep is patience before it, with room for it. */
  lemma PatientBefore(setup: Setup, moves: seq<Move>, i: nat, now: nat)
    requires setup.Valid() && HonestRun(setup, moves) && i < |setup.cfgs|
    requires Patient(setup, moves + [SweepBy(i, now)], i)
    ensures Patient(setup, moves, i)
    ensures Meets(Untruncated, setup.cfgs[i], NetRun(setup, moves)[i].core, Effect.Sweep(now))
  {
    NetRunIsLocal(setup, moves, i);
    SweepMove(setup, moves, i, now);
    var local := Local(setup, moves, i);
    assert (local + [SweepIncoming(now)])[..|local|] == local;
    hide NetRun, HonestRun, Circulating, Run, Meets;
  }

  /** Convergence without looking at what was delivered: when two participants that
      neither time out nor truncate have processed or committed every content
      message in circulation, one sweep each leaves both with nothing waiting and
      the same log, that of all the content messages there are. */
  lemma CaughtUpParticipantsAgree(setup: Setup, moves: seq<Move>, i: nat, j: nat, first: nat, second: nat)
    requires setup.Valid() && HonestRun(setup, moves) && i < |setup.cfgs| && j < |setup.cfgs| && i != j
    requires CaughtUp(NetRun(setup, moves), i) && CaughtUp(NetRun(setup, moves), j)
    requires var all := moves + [SweepBy(i, first)] + [SweepBy(j, second)];
      Patient(setup, all, i) && Patient(setup, all, j)
    ensures var after := NetRun(setup, moves + [SweepBy(i, first)] + [SweepBy(j, second)]);
            && after[i].core.ch.incoming == [] && after[j].core.ch.incoming == []
            && after[i].core.ch.log == after[j].core.ch.log
            && Elems(after[i].core.ch.log) == ContentOf(Circulating(NetRun(setup, moves)))
  {
    var one := moves + [SweepBy(i, first)];
    var two := one + [SweepBy(j, second)];
    SweepMove(setup, moves, i, first);
    SweepMove(setup, one, j, second);
    assert Local(setup, two, i) == Local(setup, one, i);
    SweepEmpties(setup, moves, i, first);
    SweepEmpties(setup, one, j, second);
    hide NetRun, HonestRun, Circulating, Local, SweepBy;
    CaughtUpLog(setup, two, i);
    CaughtUpLog(setup, two, j);
    var after := NetRun(setup, two);
    StrictlySortedUnique(after[i].core.ch.log, after[j].core.ch.log);
  }
}
