/** The Lamport clock over every run of a participant, whatever it receives. */
module Clocks {
  import opened Basics
  import opened Messages
  import opened LocalHistory
  import opened Channel
  import opened Participant

  ghost predicate StampedBy(m: Message, clock: nat) {
    m.lamportTimestamp.Some? && m.lamportTimestamp.value <= clock
  }

  ghost predicate LogClock(c: Core) {
    forall m :: m in c.ch.log ==> IsContent(m) && StampedBy(m, c.ch.clock)
  }

  /** A message built here names log messages, each with an earlier timestamp. */
  ghost predicate CausesEarlier(s: Sent) {
    && s.message.lamportTimestamp.Some?
    && EntryIds(s.message.causalHistory) == Ids(s.causes)
    && forall x :: x in s.causes ==>
         x.lamportTimestamp.Some? && x.lamportTimestamp.value < s.message.lamportTimestamp.value
  }

  ghost predicate SentClock(c: Core) {
    && (forall s :: s in c.hist.sent ==> StampedBy(s.message, c.ch.clock) && CausesEarlier(s))
    && (forall i, j :: 0 <= i < j < |c.hist.sent| ==>
          c.hist.sent[i].message.lamportTimestamp.value < c.hist.sent[j].message.lamportTimestamp.value)
  }

  ghost predicate ClockInv(c: Core) {
    LogClock(c) && SentClock(c)
  }

  /** Building a message: the clock passes everything in the log, so the new
      message is later than all it names. */
  lemma BuiltLater(c: Core, c': Core, s: Sent, size: nat)
    requires ClockInv(c) && c.ch.clock < c'.ch.clock
    requires s.causes == Recent(c.ch.log, size) && EntryIds(s.message.causalHistory) == Ids(s.causes)
    requires s.message.lamportTimestamp == Some(c'.ch.clock)
    requires c'.hist.sent == c.hist.sent + [s] && c'.ch.log == c.ch.log
    ensures ClockInv(c')
  {
    forall x | x in s.causes ensures x.lamportTimestamp.Some? && x.lamportTimestamp.value < c'.ch.clock {
      assert x in c.ch.log;
    }
    forall t | t in c'.hist.sent ensures StampedBy(t.message, c'.ch.clock) && CausesEarlier(t) {
      if t != s { assert t in c.hist.sent; }
    }
    forall i | 0 <= i < |c.hist.sent| ensures c.hist.sent[i].message.lamportTimestamp.value < c'.ch.clock {
      assert c.hist.sent[i] in c.hist.sent;
    }
  }

  lemma LogGrows(c: Core, c': Core, more: set<Message>)
    requires LogClock(c) && c.ch.clock <= c'.ch.clock && Elems(c'.ch.log) <= Elems(c.ch.log) + more
    requires forall m :: m in more ==> IsContent(m) && StampedBy(m, c'.ch.clock)
    ensures LogClock(c')
  {
    forall m | m in c'.ch.log ensures IsContent(m) && StampedBy(m, c'.ch.clock) {
      assert m in Elems(c'.ch.log);
      if m !in more { assert m in Elems(c.ch.log); }
    }
  }

  lemma ClockStep(cfg: Config, c: Core, e: Effect)
    requires Shape(cfg, c.ch) && ClockInv(c) && Legal(c, e)
    ensures ClockInv(Apply(cfg, c, e))
    ensures c.ch.clock <= Apply(cfg, c, e).ch.clock
  {
    var c' := Apply(cfg, c, e);
    match e
    case Create(payload, now, hints) =>
      if |c'.hist.sent| > |c.hist.sent| {
        BuiltLater(c, c', c'.hist.sent[|c.hist.sent|], cfg.causalHistorySize);
      }
    case Sync(id, now, hints) =>
      if |c'.hist.sent| > |c.hist.sent| {
        BuiltLater(c, c', c'.hist.sent[|c.hist.sent|], cfg.causalHistorySize);
      }
    case Commit(m, now) =>
      PushShape(c.ch.log, [m], cfg.maxLength);
      var s :| s in c.hist.sent && s.message == m;
      LogGrows(c, c', {m});
    case Receive(m, now) =>
      if !Ignored(cfg, c.ch, m) {
        ReceivedFields(cfg, c.ch, m, now);
        DeliveredFrame(cfg, c.ch, m);
        LogGrows(c, c', if DeliveredAtOnce(cfg, c.ch, m) then {m} else {});
      }
    case Sweep(now) =>
      SweepFrame(cfg, c.ch, |c.ch.incoming|, now);
      LogGrows(c, c', SweptOut(cfg, c.ch, |c.ch.incoming|, now));
    case _ =>
  }

  /** In every run: the clock bounds every timestamp in the log; each message
      built names only log messages of earlier timestamp; and messages carry
      strictly increasing timestamps in the order they are built. */
  lemma {:induction false} ClockBoundsEveryRun(cfg: Config, now: nat, groups: nat, actions: seq<Action>)
    requires cfg.Valid()
    ensures ClockInv(Run(cfg, now, groups, actions).core)
  {
    if |actions| > 0 {
      var before, a := Run(cfg, now, groups, actions[..|actions| - 1]), actions[|actions| - 1];
      ClockBoundsEveryRun(cfg, now, groups, actions[..|actions| - 1]);
      OwnRun(cfg, now, groups, actions[..|actions| - 1]);
      OwnStep(cfg, before, a);
      StepIsApply(cfg, before, a);
      ClockStep(cfg, before.core, EffectOf(before, a));
    }
  }

  /** And the clock never decreases from one point of a run to a later one. */
  lemma {:induction false} ClockNeverDecreases(cfg: Config, now: nat, groups: nat, actions: seq<Action>, k: nat)
    requires cfg.Valid() && k <= |actions|
    ensures Run(cfg, now, groups, actions[..k]).core.ch.clock <= Run(cfg, now, groups, actions).core.ch.clock
  {
    if k < |actions| {
      var p := actions[..|actions| - 1];
      var before, a := Run(cfg, now, groups, p), actions[|actions| - 1];
      ClockNeverDecreases(cfg, now, groups, p, k);
      assert p[..k] == actions[..k];
      ClockBoundsEveryRun(cfg, now, groups, p);
      OwnRun(cfg, now, groups, p);
      OwnStep(cfg, before, a);
      StepIsApply(cfg, before, a);
      ClockStep(cfg, before.core, EffectOf(before, a));
    } else {
      assert actions[..k] == actions;
    }
  }
}
