/** Causal closure of the log. */
module Closure {
  import opened Basics
  import opened Messages
  import opened LocalHistory
  import opened Channel
  import opened Sweeping
  import opened Participant

  ghost predicate NoSyncDependency(m: Message) {
    forall e :: e in m.causalHistory ==> !IsSyncId(e.messageId)
  }

  ghost predicate LogClosed(c: Core) {
    forall m :: m in c.ch.log ==>
      EntryIds(m.causalHistory) <= Available(c.ch) && NoSyncDependency(m) && !IsSyncId(m.messageId)
  }

  ghost predicate SentClosed(c: Core) {
    forall s :: s in c.hist.sent ==>
      EntryIds(s.message.causalHistory) <= Ids(c.ch.log) && NoSyncDependency(s.message)
      && (IsContent(s.message) ==> !IsSyncId(s.message.messageId))
  }

  ghost predicate IncomingFormed(c: Core) {
    forall m :: m in c.ch.incoming ==> NamesContentOnly(m) && m.lamportTimestamp.Some?
  }

  ghost predicate ClosureInv(c: Core) {
    LogClosed(c) && SentClosed(c) && IncomingFormed(c) && DistinctIds(c.ch.log)
  }

  /** Only ids of sync messages stop being available; the log keeps its ids. */
  ghost predicate Keeps(c: Core, c': Core) {
    && (forall x :: x in Available(c.ch) && !IsSyncId(x) ==> x in Available(c'.ch))
    && Ids(c.ch.log) <= Ids(c'.ch.log)
  }

  /** What was closed stays closed; only what is new needs its dependencies. */
  lemma StaysClosed(c: Core, c': Core, more: set<Message>)
    requires ClosureInv(c) && Keeps(c, c')
    requires Elems(c'.ch.log) <= Elems(c.ch.log) + more
    requires forall m :: m in more ==>
              EntryIds(m.causalHistory) <= Available(c.ch) && NoSyncDependency(m) && !IsSyncId(m.messageId)
    ensures LogClosed(c')
    ensures c'.hist.sent == c.hist.sent ==> SentClosed(c')
  {
    forall m | m in c'.ch.log
      ensures EntryIds(m.causalHistory) <= Available(c'.ch) && NoSyncDependency(m) && !IsSyncId(m.messageId)
    {
      assert m in Elems(c'.ch.log);
      if m !in more { assert m in Elems(c.ch.log); }
      assert EntryIds(m.causalHistory) <= Available(c.ch);
      forall x | x in EntryIds(m.causalHistory) ensures x in Available(c'.ch) {
        var e :| e in m.causalHistory && e.messageId == x;
      }
    }
  }

  lemma BuiltClosed(c: Core, c': Core, s: Sent, size: nat)
    requires ClosureInv(c) && c'.hist.sent == c.hist.sent + [s]
    requires c'.ch.log == c.ch.log && c'.ch.incoming == c.ch.incoming
    requires EntryIds(s.message.causalHistory) == Ids(Recent(c.ch.log, size))
    requires IsContent(s.message) ==> !IsSyncId(s.message.messageId)
    ensures ClosureInv(c')
  {
    forall e | e in s.message.causalHistory ensures e.messageId in Ids(c.ch.log) && !IsSyncId(e.messageId) {
      assert e.messageId in Ids(Recent(c.ch.log, size));
      var m :| m in Recent(c.ch.log, size) && m.messageId == e.messageId;
      assert m in c.ch.log;
    }
    forall t | t in c'.hist.sent
      ensures EntryIds(t.message.causalHistory) <= Ids(c'.ch.log) && NoSyncDependency(t.message)
      ensures IsContent(t.message) ==> !IsSyncId(t.message.messageId)
    {
      if t != s { assert t in c.hist.sent; }
    }
  }

  lemma CommitClosed(cfg: Config, c: Core, m: Message, now: nat)
    requires Shape(cfg, c.ch) && ClosureInv(c) && m in SentMessages(c) && IsContent(m)
    requires |Ids(c.ch.log) + {m.messageId}| <= cfg.maxLength
    ensures ClosureInv(CoreCommit(cfg, c, m, now))
  {
    hide *;
    var c' := CoreCommit(cfg, c, m, now);
    CommitAddsOne(cfg, c, m, now);
    SentIsClosed(c, m);
    LogGrowthKeeps(c, c');
    StaysClosed(c, c', {m});
    Assembled(c, c');
  }

  lemma Assembled(c: Core, c': Core)
    requires ClosureInv(c) && LogClosed(c') && SentClosed(c') && DistinctIds(c'.ch.log)
    requires c'.ch.incoming == c.ch.incoming
    ensures ClosureInv(c')
  {
    hide LogClosed, SentClosed, NamesContentOnly, DistinctIds;
  }

  lemma LogGrowthKeeps(c: Core, c': Core)
    requires Ids(c.ch.log) <= Ids(c'.ch.log) && c'.ch.incoming == c.ch.incoming
    ensures Keeps(c, c')
  {
    hide Ids;
  }

  lemma CommitAddsOne(cfg: Config, c: Core, m: Message, now: nat)
    requires Shape(cfg, c.ch) && |Ids(c.ch.log) + {m.messageId}| <= cfg.maxLength
    ensures var c' := CoreCommit(cfg, c, m, now);
            && Ids(c'.ch.log) == Ids(c.ch.log) + {m.messageId} && DistinctIds(c'.ch.log)
            && Elems(c'.ch.log) <= Elems(c.ch.log) + {m}
            && c'.ch.incoming == c.ch.incoming && c'.hist.sent == c.hist.sent
  {
    hide Pushed, Ids, DistinctIds;
    PushShape(c.ch.log, [m], cfg.maxLength);
    PushOneIds(c.ch.log, m, cfg.maxLength);
    assert Elems([m]) == {m};
  }

  lemma SentIsClosed(c: Core, m: Message)
    requires ClosureInv(c) && m in SentMessages(c) && IsContent(m)
    ensures EntryIds(m.causalHistory) <= Available(c.ch) && NoSyncDependency(m) && !IsSyncId(m.messageId)
  {
    hide EntryIds, NoSyncDependency, NamesContentOnly, DistinctIds, Ids;
    var s :| s in c.hist.sent && s.message == m;
  }

  lemma ReceiveClosed(cfg: Config, c: Core, m: Message, now: nat)
    requires Shape(cfg, c.ch) && ClosureInv(c) && NamesContentOnly(m) && !Ignored(cfg, c.ch, m)
    requires DeliveredAtOnce(cfg, c.ch, m) ==> |Ids(c.ch.log) + {m.messageId}| <= cfg.maxLength
    ensures ClosureInv(CoreReceive(cfg, c, m, now))
  {
    var c' := CoreReceive(cfg, c, m, now);
    ReceivedFields(cfg, c.ch, m, now);
    hide Received, ReviewAckStatus;
    if DeliveredAtOnce(cfg, c.ch, m) {
      DeliveredFits(cfg, c.ch, m);
      StaysClosed(c, c', {m});
    } else {
      if Parsed(cfg, m) && !(EntryIds(m.causalHistory) <= Available(c.ch)) {
        IdsSnoc(c.ch.incoming, m);
      }
      StaysClosed(c, c', {});
    }
  }

  lemma SweepClosed(cfg: Config, c: Core, now: nat)
    requires Shape(cfg, c.ch) && ClosureInv(c) && cfg.timeoutForLostMessagesMs == 0 && Roomy(cfg, c.ch)
    ensures ClosureInv(CoreSweep(cfg, c, now))
  {
    var c' := CoreSweep(cfg, c, now);
    var have := Available(c.ch);
    SweepReachesFixpoint(cfg, c.ch, now, now);
    AfterSweepAvailable(cfg, c.ch, now);
    SweepFrame(cfg, c.ch, |c.ch.incoming|, now);
    WaitingMembers(c.ch.incoming, have);
    hide Swept, SweptOut, Available, Waiting, Settled;
    StaysClosed(c, c', Elems(Settled(c.ch.incoming, have)));
  }

  lemma OneId(m: Message)
    ensures IdsOf({m}) == {m.messageId}
  {
  }

  /** With the timeout off, what a sweep would push is what settles. */
  lemma RoomToSweep(cfg: Config, c: Core, now: nat)
    requires Shape(cfg, c.ch) && cfg.timeoutForLostMessagesMs == 0 && Meets(Untruncated, cfg, c, Effect.Sweep(now))
    ensures Roomy(cfg, c.ch)
  {
    var arriving, settled := Arriving(cfg, c, Effect.Sweep(now)), Settled(c.ch.incoming, Available(c.ch));
    WaitingMembers(c.ch.incoming, Available(c.ch));
    hide Settled, Available;
    assert forall m :: m in arriving <==> m in settled;
    assert IdsOf(arriving) == Ids(settled);
  }

  lemma BuildClosed(cfg: Config, c: Core, e: Effect)
    requires Shape(cfg, c.ch) && HexIds(cfg) && ClosureInv(c) && (e.Create? || e.Sync?)
    ensures ClosureInv(Apply(cfg, c, e))
  {
    var c' := Apply(cfg, c, e);
    hide ClosureInv, TakeRepairRequests, Recent;
    if |c'.hist.sent| > |c.hist.sent| {
      BuiltClosed(c, c', c'.hist.sent[|c.hist.sent|], cfg.causalHistorySize);
    } else {
      SameClosed(c, c');
    }
  }

  lemma SameClosed(c: Core, c': Core)
    requires ClosureInv(c) && c'.ch.log == c.ch.log && c'.ch.incoming == c.ch.incoming && c'.hist.sent == c.hist.sent
    ensures ClosureInv(c')
  {
    hide EntryIds, NoSyncDependency, NamesContentOnly, DistinctIds;
  }

  lemma ClosureStep(cfg: Config, c: Core, e: Effect)
    requires Shape(cfg, c.ch) && HexIds(cfg) && cfg.timeoutForLostMessagesMs == 0
    requires ClosureInv(c) && Legal(c, e) && Meets(ContentNamed, cfg, c, e) && Meets(Untruncated, cfg, c, e)
    ensures ClosureInv(Apply(cfg, c, e))
  {
    hide ClosureInv, CoreReceive, CoreSweep, CoreCommit, CoreCreate, CoreSync, NamesContentOnly, Ids, IdsOf;
    match e
    case Commit(m, now) =>
      OneId(m);
      CommitClosed(cfg, c, m, now);
    case Receive(m, now) =>
      OneId(m);
      if Ignored(cfg, c.ch, m) {
        IgnoredChangesNothing(cfg, c, m, now);
      } else {
        ReceiveClosed(cfg, c, m, now);
      }
    case Sweep(now) =>
      RoomToSweep(cfg, c, now);
      SweepClosed(cfg, c, now);
    case AnswerRepairs(now) => SameClosed(c, Apply(cfg, c, e));
    case Idle =>
    case _ => BuildClosed(cfg, c, e);
  }

  lemma IgnoredChangesNothing(cfg: Config, c: Core, m: Message, now: nat)
    requires Shape(cfg, c.ch) && Ignored(cfg, c.ch, m)
    ensures CoreReceive(cfg, c, m, now) == c
  {
  }

  lemma {:induction false} ClosureRun(cfg: Config, now: nat, groups: nat, actions: seq<Action>)
    requires cfg.Valid() && HexIds(cfg) && cfg.timeoutForLostMessagesMs == 0
    requires RunMeets(ContentNamed, cfg, now, groups, actions) && RunMeets(Untruncated, cfg, now, groups, actions)
    ensures ClosureInv(Run(cfg, now, groups, actions).core)
  {
    if |actions| > 0 {
      var before, a := Run(cfg, now, groups, actions[..|actions| - 1]), actions[|actions| - 1];
      ClosureRun(cfg, now, groups, actions[..|actions| - 1]);
      OwnRun(cfg, now, groups, actions[..|actions| - 1]);
      OwnStep(cfg, before, a);
      StepIsApply(cfg, before, a);
      ClosureStep(cfg, before.core, EffectOf(before, a));
    }
  }

  /** In every reachable state, with the lost-message timeout off, nothing
      truncated and only content messages named by what is received, every
      dependency of every message in the log has been received: it is in the log
      or in the incoming buffer. The log is causally closed whenever that buffer is
      empty. */
  lemma LogCausallyClosed(cfg: Config, now: nat, groups: nat, actions: seq<Action>, m: Message, e: HistoryEntry)
    requires cfg.Valid() && HexIds(cfg) && cfg.timeoutForLostMessagesMs == 0
    requires RunMeets(ContentNamed, cfg, now, groups, actions) && RunMeets(Untruncated, cfg, now, groups, actions)
    requires m in Run(cfg, now, groups, actions).core.ch.log && e in m.causalHistory
    ensures var ch := Run(cfg, now, groups, actions).core.ch;
            && (e.messageId in Ids(ch.log) || e.messageId in Ids(ch.incoming))
            && (ch.incoming == [] ==> e.messageId in Ids(ch.log))
  {
    ClosureRun(cfg, now, groups, actions);
    assert e.messageId in EntryIds(m.causalHistory);
  }

  /** And in every such state a sweep made twice returns the same entries twice. */
  lemma SweepsAgreeInEveryRun(cfg: Config, now: nat, groups: nat, actions: seq<Action>, first: nat, second: nat)
    requires cfg.Valid() && HexIds(cfg) && cfg.timeoutForLostMessagesMs == 0
    requires RunMeets(ContentNamed, cfg, now, groups, actions) && RunMeets(Untruncated, cfg, now, groups, actions)
    requires Meets(Untruncated, cfg, Run(cfg, now, groups, actions).core, Effect.Sweep(first))
    ensures var (after, missing) := Swept(cfg, Run(cfg, now, groups, actions).core.ch, first);
            Swept(cfg, after, second) == (after, missing)
  {
    var c := Run(cfg, now, groups, actions).core;
    ClosureRun(cfg, now, groups, actions);
    RoomToSweep(cfg, c, first);
    SyncsAreNotNamed(c);
    hide Run, RunMeets, Swept, Meets, Roomy, DistinctIds;
    SweepReachesFixpoint(cfg, c.ch, first, second);
    SecondSweepReturnsSame(cfg, c.ch, first, second);
  }

  lemma SyncsAreNotNamed(c: Core)
    requires IncomingFormed(c)
    ensures forall m, x :: m in c.ch.incoming && x in c.ch.incoming && x.messageId in EntryIds(m.causalHistory) ==>
            IsContent(x)
  {
  }

  /** No more than that is promised: a message whose only dependency has arrived
      but is itself waiting is delivered ahead of it. */
  lemma DependencyMayStillWait(cfg: Config, st: ChannelState, a: Message, b: Message, now: nat)
    requires Shape(cfg, st) && |Ids(st.log) + {b.messageId}| <= cfg.maxLength
    requires IsContent(a) && IsContent(b) && Parsed(cfg, a) && Parsed(cfg, b) && a.messageId != b.messageId
    requires !Ignored(cfg, st, a) && !Ignored(cfg, st, b)
    requires !(EntryIds(a.causalHistory) <= Available(st)) && a.messageId !in Ids(st.log)
    requires EntryIds(b.causalHistory) == {a.messageId}
    ensures var after := Received(cfg, Received(cfg, st, a, now), b, now);
            b.messageId in Ids(after.log) && a.messageId !in Ids(after.log) && a.messageId in Ids(after.incoming)
  {
    hide Received, ReviewAckStatus, RepairOnReceive, Pushed, Parsed, Ids;
    var s1 := Received(cfg, st, a, now);
    ReceivedFields(cfg, st, a, now);
    IdsSnoc(st.incoming, a);
    ReceivedFields(cfg, s1, b, now);
    PushOneIds(st.log, b, cfg.maxLength);
  }
}
