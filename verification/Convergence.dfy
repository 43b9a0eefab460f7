/** Participants that have delivered the same messages hold the same log. */
module Convergence {
  import opened Basics
  import opened Messages
  import opened LocalHistory
  import opened Channel
  import opened Participant

  ghost predicate TopInv(cfg: Config, c: Core) {
    IsTop(c.ch.log, c.hist.delivered, cfg.maxLength)
  }

  /** Delivering skips the push when the id is present; pushing would have changed
      nothing. */
  lemma DeliveredKeepsTop(cfg: Config, st: ChannelState, all: set<Message>, m: Message)
    requires IsTop(st.log, all, cfg.maxLength) && IsContent(m) && IdDetermines(all + {m})
    ensures IsTop(Delivered(cfg, st, m).log, all + {m}, cfg.maxLength)
  {
    if m.messageId in Ids(st.log) {
      var x :| x in st.log && x.messageId == m.messageId;
      assert x in Elems(st.log);
      assert x == m;
      assert all + {m} == all;
    } else {
      assert Elems([m]) == {m};
      PushKeepsTop(st.log, all, [m], cfg.maxLength);
    }
  }

  lemma IdDeterminesSubset(small: set<Message>, large: set<Message>)
    requires small <= large && IdDetermines(large)
    ensures IdDetermines(small)
  {
  }

  /** What one step of a sweep delivers. */
  ghost function StepOut(cfg: Config, acc: SweepState, m: Message, now: nat): set<Message> {
    if IsContent(m) && (EntryIds(m.causalHistory) <= Available(acc.st) || TimedOut(cfg, acc.st, m, now))
    then {m} else {}
  }

  lemma SweepMessageKeepsTop(cfg: Config, acc: SweepState, all: set<Message>, m: Message, now: nat)
    requires IsTop(acc.st.log, all, cfg.maxLength) && IdDetermines(all + StepOut(cfg, acc, m, now))
    ensures IsTop(SweepMessage(cfg, acc, m, now).st.log, all + StepOut(cfg, acc, m, now), cfg.maxLength)
  {
    MissingEntriesExactly(m.causalHistory, Available(acc.st));
    if StepOut(cfg, acc, m, now) == {m} {
      DeliveredKeepsTop(cfg, acc.st, all, m);
    } else {
      assert all + {} == all;
    }
    hide IsTop, IdDetermines, Pushed, MissingEntries;
  }

  lemma {:induction false} SweepKeepsTop(cfg: Config, c: Core, n: nat, now: nat)
    requires n <= |c.ch.incoming| && TopInv(cfg, c)
    requires IdDetermines(c.hist.delivered + SweptOut(cfg, c.ch, n, now))
    ensures IsTop(SweepFirst(cfg, c.ch, n, now).st.log, c.hist.delivered + SweptOut(cfg, c.ch, n, now), cfg.maxLength)
  {
    hide IsTop, IdDetermines, SweepMessage, EntryIds, Available, TimedOut;
    if n == 0 {
      assert c.hist.delivered + {} == c.hist.delivered;
    } else {
      var acc, m := SweepFirst(cfg, c.ch, n - 1, now), c.ch.incoming[n - 1];
      var all := c.hist.delivered + SweptOut(cfg, c.ch, n - 1, now);
      var more := c.hist.delivered + SweptOut(cfg, c.ch, n, now);
      assert more == all + StepOut(cfg, acc, m, now);
      hide StepOut;
      IdDeterminesSubset(all, more);
      SweepKeepsTop(cfg, c, n - 1, now);
      SweepMessageKeepsTop(cfg, acc, all, m, now);
    }
  }

  lemma ReceiveKeepsTop(cfg: Config, c: Core, m: Message, now: nat)
    requires Shape(cfg, c.ch) && TopInv(cfg, c) && !Ignored(cfg, c.ch, m)
    requires IdDetermines(CoreReceive(cfg, c, m, now).hist.delivered)
    ensures TopInv(cfg, CoreReceive(cfg, c, m, now))
  {
    hide IsTop, IdDetermines, Received;
    ReceivedFields(cfg, c.ch, m, now);
    if DeliveredAtOnce(cfg, c.ch, m) {
      DeliveredKeepsTop(cfg, c.ch, c.hist.delivered, m);
    } else {
      assert CoreReceive(cfg, c, m, now).ch.log == c.ch.log;
      assert CoreReceive(cfg, c, m, now).hist.delivered == c.hist.delivered;
    }
  }

  lemma TopStep(cfg: Config, c: Core, e: Effect)
    requires Shape(cfg, c.ch) && TopInv(cfg, c) && Meets(Identified, cfg, c, e)
    ensures TopInv(cfg, Apply(cfg, c, e))
  {
    hide IsTop, IdDetermines;
    match e
    case Commit(m, now) =>
      assert Elems([m]) == {m};
      PushKeepsTop(c.ch.log, c.hist.delivered, [m], cfg.maxLength);
    case Receive(m, now) =>
      if !Ignored(cfg, c.ch, m) { ReceiveKeepsTop(cfg, c, m, now); }
    case Sweep(now) => SweepKeepsTop(cfg, c, |c.ch.incoming|, now);
    case _ =>
  }

  lemma {:induction false} TopRun(cfg: Config, now: nat, groups: nat, actions: seq<Action>)
    requires cfg.Valid() && RunMeets(Identified, cfg, now, groups, actions)
    ensures TopInv(cfg, Run(cfg, now, groups, actions).core)
  {
    if |actions| > 0 {
      var before, a := Run(cfg, now, groups, actions[..|actions| - 1]), actions[|actions| - 1];
      TopRun(cfg, now, groups, actions[..|actions| - 1]);
      StepIsApply(cfg, before, a);
      TopStep(cfg, before.core, EffectOf(before, a));
    } else {
      TopOfEmpty(cfg.maxLength);
    }
  }

  /** Two participants, whatever their runs, that have delivered the same set of
      messages hold the same log, entry for entry, even when it was truncated on
      the way. */
  lemma SameDeliveriesSameLog(
    one: Config, now1: nat, groups1: nat, run1: seq<Action>,
    other: Config, now2: nat, groups2: nat, run2: seq<Action>)
    requires one.Valid() && other.Valid() && one.maxLength == other.maxLength
    requires RunMeets(Identified, one, now1, groups1, run1) && RunMeets(Identified, other, now2, groups2, run2)
    requires Run(one, now1, groups1, run1).core.hist.delivered == Run(other, now2, groups2, run2).core.hist.delivered
    ensures Run(one, now1, groups1, run1).core.ch.log == Run(other, now2, groups2, run2).core.ch.log
  {
    TopRun(one, now1, groups1, run1);
    TopRun(other, now2, groups2, run2);
    TopUnique(Run(one, now1, groups1, run1).core.ch.log, Run(other, now2, groups2, run2).core.ch.log,
              Run(one, now1, groups1, run1).core.hist.delivered, one.maxLength);
  }
}
