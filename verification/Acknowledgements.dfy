/** When, and only when, a message leaves the outgoing buffer. */
module Acknowledgements {
  import opened Basics
  import opened Messages
  import opened Bloom
  import opened LocalHistory
  import opened Channel
  import opened Participant

  ghost predicate FilterHas(cfg: Config, m: Message, id: MessageId) {
    m.bloomFilter.Some? && BytesContain(cfg.filter, m.bloomFilter.value, id)
  }

  /** How many of the messages reviewed from index `from` on carry a filter that
      contains the id. */
  ghost function Hits(cfg: Config, reviewed: seq<Message>, from: nat, id: MessageId): nat {
    if |reviewed| <= from then 0
    else Hits(cfg, reviewed[..|reviewed| - 1], from, id) + if FilterHas(cfg, reviewed[|reviewed| - 1], id) then 1 else 0
  }

  lemma HitsSnoc(cfg: Config, reviewed: seq<Message>, m: Message, from: nat, id: MessageId)
    requires from <= |reviewed|
    ensures Hits(cfg, reviewed + [m], from, id) ==
            Hits(cfg, reviewed, from, id) + if FilterHas(cfg, m, id) then 1 else 0
  {
    assert (reviewed + [m])[..|reviewed|] == reviewed;
  }

  ghost predicate AcksBounded(cfg: Config, acks: map<MessageId, nat>) {
    forall id :: id in acks ==> 1 <= acks[id] < cfg.possibleAcksThreshold
  }

  /** One filter over a buffer of distinct ids: who stays, and what is counted. */
  lemma {:induction false} ReviewFilterExactly(cfg: Config, words: seq<nat>, ms: seq<Message>,
                                                 acks: map<MessageId, nat>)
    requires DistinctIds(ms)
    ensures var (kept, counted) := ReviewFilter(cfg, words, ms, acks);
            && (forall m :: m in kept <==>
                  m in ms && (Contains(cfg.filter, words, m.messageId) ==>
                      AckCount(acks, m.messageId) + 1 < cfg.possibleAcksThreshold))
            && (forall m :: m in kept ==>
                  AckCount(counted, m.messageId) ==
                  AckCount(acks, m.messageId) + if Contains(cfg.filter, words, m.messageId) then 1 else 0)
            && (forall id :: id !in Ids(ms) ==> AckCount(counted, id) == AckCount(acks, id))
            && (forall m :: m in ms && m !in kept ==> m.messageId !in counted)
  {
    hide Contains, DistinctIds;
    if |ms| > 0 {
      var p, l := ms[..|ms| - 1], ms[|ms| - 1];
      assert ms == p + [l];
      IdsSnoc(p, l);
      ReviewFilterExactly(cfg, words, p, acks);
      var (kept, counted) := ReviewFilter(cfg, words, p, acks);
      forall m | m in kept ensures m.messageId != l.messageId {
        assert m in p;
      }
    }
  }

  lemma {:induction false} ReviewFilterBounded(cfg: Config, words: seq<nat>, ms: seq<Message>,
                                                 acks: map<MessageId, nat>)
    requires AcksBounded(cfg, acks)
    ensures AcksBounded(cfg, ReviewFilter(cfg, words, ms, acks).1)
  {
    if |ms| > 0 {
      ReviewFilterBounded(cfg, words, ms[..|ms| - 1], acks);
    }
  }

  /** Reviewing one message: what stays is not named by it, and is not in its
      filter unless the count stays below the threshold. */
  lemma ReviewExactly(cfg: Config, outgoing: seq<Message>, acks: map<MessageId, nat>, r: Message)
    requires cfg.Valid() && DistinctIds(outgoing)
    ensures var (kept, counted, _) := ReviewAckStatus(cfg, outgoing, acks, r);
            && (forall m :: m in kept <==>
                  m in outgoing && m.messageId !in EntryIds(r.causalHistory)
                  && (FilterHas(cfg, r, m.messageId) ==> AckCount(acks, m.messageId) + 1 < cfg.possibleAcksThreshold))
            && (forall m :: m in kept ==>
                  AckCount(counted, m.messageId) ==
                      AckCount(acks, m.messageId) + if FilterHas(cfg, r, m.messageId) then 1 else 0)
            && (AcksBounded(cfg, acks) ==> AcksBounded(cfg, counted))
  {
    var unnamed := NotNamed(outgoing, EntryIds(r.causalHistory));
    NotNamedMembers(outgoing, EntryIds(r.causalHistory));
    if r.bloomFilter.Some? {
      var words := BytesToWords(r.bloomFilter.value, cfg.filter.NumWords());
      if words.Success? {
        ReviewFilterExactly(cfg, words.value, unnamed, acks);
        if AcksBounded(cfg, acks) {
          ReviewFilterBounded(cfg, words.value, unnamed, acks);
        }
      }
    }
  }

  /** A review keeps the order of the outgoing buffer. */
  lemma ReviewKeepsOrder(cfg: Config, outgoing: seq<Message>, acks: map<MessageId, nat>, r: Message)
    requires cfg.Valid()
    ensures Subsequence(ReviewAckStatus(cfg, outgoing, acks, r).0, outgoing)
  {
    var unnamed := NotNamed(outgoing, EntryIds(r.causalHistory));
    NotNamedOrder(outgoing, EntryIds(r.causalHistory));
    if r.bloomFilter.Some? {
      var words := BytesToWords(r.bloomFilter.value, cfg.filter.NumWords());
      if words.Success? {
        ReviewFilterOrder(cfg, words.value, unnamed, acks);
        SubsequenceTransitive(ReviewFilter(cfg, words.value, unnamed, acks).0, unnamed, outgoing);
      }
    }
  }

  lemma {:induction false} NotNamedOrder(ms: seq<Message>, named: set<MessageId>)
    ensures Subsequence(NotNamed(ms, named), ms)
  {
    if |ms| > 0 {
      var p, l := ms[..|ms| - 1], ms[|ms| - 1];
      assert ms == p + [l];
      NotNamedOrder(p, named);
      SubsequenceSnoc(NotNamed(p, named), p, l);
    }
  }

  lemma {:induction false} ReviewFilterOrder(cfg: Config, words: seq<nat>, ms: seq<Message>, acks: map<MessageId, nat>)
    ensures Subsequence(ReviewFilter(cfg, words, ms, acks).0, ms)
  {
    hide Contains;
    if |ms| > 0 {
      var p, l := ms[..|ms| - 1], ms[|ms| - 1];
      assert ms == p + [l];
      ReviewFilterOrder(cfg, words, p, acks);
      SubsequenceSnoc(ReviewFilter(cfg, words, p, acks).0, p, l);
    }
  }

  // Over every run.

  /** Each buffered message has been counted once for every message reviewed since
      it was built whose filter contains it, and fewer times than the threshold. */
  ghost predicate CountedExactly(cfg: Config, c: Core, m: Message) {
    && m.messageId in c.hist.since && c.hist.since[m.messageId] <= |c.hist.reviewed|
    && AckCount(c.ch.acks, m.messageId) == Hits(cfg, c.hist.reviewed, c.hist.since[m.messageId], m.messageId)
    && AckCount(c.ch.acks, m.messageId) < Max(1, cfg.possibleAcksThreshold)
  }

  ghost predicate AckInv(cfg: Config, c: Core) {
    && AcksBounded(cfg, c.ch.acks)
    && DistinctIds(c.ch.outgoing)
    && forall m :: m in c.ch.outgoing ==> CountedExactly(cfg, c, m)
  }

  /** Does reviewing `r` acknowledge `m`: by name, or as the filter hit that
      reaches the threshold? */
  ghost predicate Acknowledges(cfg: Config, c: Core, r: Message, m: Message)
    requires m.messageId in c.hist.since
  {
    || m.messageId in EntryIds(r.causalHistory)
    || (FilterHas(cfg, r, m.messageId)
        && Hits(cfg, c.hist.reviewed + [r], c.hist.since[m.messageId], m.messageId) >= cfg.possibleAcksThreshold)
  }

  lemma ReceiveAcks(cfg: Config, c: Core, r: Message, now: nat)
    requires Shape(cfg, c.ch) && AckInv(cfg, c) && !Ignored(cfg, c.ch, r)
    ensures AckInv(cfg, CoreReceive(cfg, c, r, now))
    ensures forall m :: m in c.ch.outgoing ==>
              (m !in CoreReceive(cfg, c, r, now).ch.outgoing <==> Acknowledges(cfg, c, r, m))
  {
    var c' := CoreReceive(cfg, c, r, now);
    ReceivedFields(cfg, c.ch, r, now);
    ReviewExactly(cfg, c.ch.outgoing, c.ch.acks, r);
    ReviewShape(cfg, c.ch.outgoing, c.ch.acks, r);
    hide Received, ReviewAckStatus, DistinctIds;
    forall m | m in c.ch.outgoing
      ensures m in c'.ch.outgoing ==> CountedExactly(cfg, c', m)
      ensures m !in c'.ch.outgoing <==> Acknowledges(cfg, c, r, m)
    {
      assert CountedExactly(cfg, c, m);
      HitsSnoc(cfg, c.hist.reviewed, r, c.hist.since[m.messageId], m.messageId);
    }
  }

  lemma CreateAcks(cfg: Config, c: Core, e: Effect)
    requires Shape(cfg, c.ch) && AckInv(cfg, c) && e.Create? && Meets(Unstale, cfg, c, e)
    ensures AckInv(cfg, Apply(cfg, c, e))
    ensures Elems(c.ch.outgoing) <= Elems(Apply(cfg, c, e).ch.outgoing)
  {
    var c' := Apply(cfg, c, e);
    if |c'.hist.sent| > |c.hist.sent| {
      var m := c'.hist.sent[|c.hist.sent|].message;
      IdsSnoc(c.ch.outgoing, m);
      forall x | x in c'.ch.outgoing ensures CountedExactly(cfg, c', x) {
        if x != m { assert CountedExactly(cfg, c, x) && x.messageId in Ids(c.ch.outgoing); }
      }
    }
  }

  lemma AckStep(cfg: Config, c: Core, e: Effect)
    requires Shape(cfg, c.ch) && AckInv(cfg, c) && Meets(Unstale, cfg, c, e)
    ensures AckInv(cfg, Apply(cfg, c, e))
    ensures forall m :: m in c.ch.outgoing ==>
              (m !in Apply(cfg, c, e).ch.outgoing
               <==> e.Receive? && !Ignored(cfg, c.ch, e.message) && Acknowledges(cfg, c, e.message, m))
  {
    var c' := Apply(cfg, c, e);
    if e.Create? {
      CreateAcks(cfg, c, e);
      assert forall m :: m in c.ch.outgoing ==> m in Elems(c'.ch.outgoing);
    } else if e.Receive? && !Ignored(cfg, c.ch, e.message) {
      ReceiveAcks(cfg, c, e.message, e.now);
    } else {
      AcksUntouched(cfg, c, e);
      assert forall m :: m in c.ch.outgoing ==> CountedExactly(cfg, c', m);
    }
  }

  lemma AcksUntouched(cfg: Config, c: Core, e: Effect)
    requires Shape(cfg, c.ch) && !e.Create? && !(e.Receive? && !Ignored(cfg, c.ch, e.message))
    ensures var c' := Apply(cfg, c, e);
            && c'.ch.outgoing == c.ch.outgoing && c'.ch.acks == c.ch.acks
            && c'.hist.reviewed == c.hist.reviewed && c'.hist.since == c.hist.since
  {
    if e.Sweep? { SweepFrame(cfg, c.ch, |c.ch.incoming|, e.now); }
  }

  lemma {:induction false} AckRun(cfg: Config, now: nat, groups: nat, actions: seq<Action>)
    requires cfg.Valid() && RunMeets(Unstale, cfg, now, groups, actions)
    ensures AckInv(cfg, Run(cfg, now, groups, actions).core)
  {
    if |actions| > 0 {
      var before, a := Run(cfg, now, groups, actions[..|actions| - 1]), actions[|actions| - 1];
      AckRun(cfg, now, groups, actions[..|actions| - 1]);
      StepIsApply(cfg, before, a);
      AckStep(cfg, before.core, EffectOf(before, a));
    }
  }

  /** Acknowledgement, sound and complete, at every point of every run in which no
      message is built under an id that still has a count: a buffered message
      leaves exactly when a message of another participant is processed that
      names it, or that is at least the threshold-th reviewed since it was built
      whose filter contains it. Whatever stays has been seen in fewer filters. */
  lemma AcknowledgementExact(cfg: Config, now: nat, groups: nat, actions: seq<Action>, a: Action, m: Message)
    requires cfg.Valid() && RunMeets(Unstale, cfg, now, groups, actions + [a])
    requires m in Run(cfg, now, groups, actions).core.ch.outgoing
    ensures var before, after := Run(cfg, now, groups, actions), Run(cfg, now, groups, actions + [a]);
            var e := EffectOf(before, a);
            && m.messageId in before.core.hist.since
            && (m !in after.core.ch.outgoing
                <==>
                e.Receive? && !Ignored(cfg, before.core.ch, e.message)
                && Acknowledges(cfg, before.core, e.message, m))
            && (m !in after.core.ch.outgoing ==> e.message.senderId != cfg.senderId)
            && Hits(cfg, before.core.hist.reviewed, before.core.hist.since[m.messageId], m.messageId) <
               Max(1, cfg.possibleAcksThreshold)
  {
    assert (actions + [a])[..|actions|] == actions;
    var before := Run(cfg, now, groups, actions);
    AckRun(cfg, now, groups, actions);
    StepIsApply(cfg, before, a);
    AckStep(cfg, before.core, EffectOf(before, a));
    assert CountedExactly(cfg, before.core, m);
  }

  /** Stored counts stay between one and the threshold less one in every run,
      payloads reused or not. */
  lemma {:induction false} PossibleAcksBounded(cfg: Config, now: nat, groups: nat, actions: seq<Action>)
    requires cfg.Valid()
    ensures AcksBounded(cfg, Run(cfg, now, groups, actions).core.ch.acks)
  {
    if |actions| > 0 {
      var before, a := Run(cfg, now, groups, actions[..|actions| - 1]), actions[|actions| - 1];
      var c, e := before.core, EffectOf(before, a);
      PossibleAcksBounded(cfg, now, groups, actions[..|actions| - 1]);
      OwnRun(cfg, now, groups, actions[..|actions| - 1]);
      StepIsApply(cfg, before, a);
      if e.Receive? && !Ignored(cfg, c.ch, e.message) {
        ReceivedFields(cfg, c.ch, e.message, e.now);
        ReviewExactly(cfg, c.ch.outgoing, c.ch.acks, e.message);
      } else if !e.Create? {
        AcksUntouched(cfg, c, e);
      }
    }
  }

  // What an acknowledgement by name leaves behind.

  lemma NamedKeepsCount(cfg: Config, outgoing: seq<Message>, acks: map<MessageId, nat>, r: Message, id: MessageId)
    requires cfg.Valid() && DistinctIds(outgoing) && id in EntryIds(r.causalHistory)
    ensures AckCount(ReviewAckStatus(cfg, outgoing, acks, r).1, id) == AckCount(acks, id)
  {
    var unnamed := NotNamed(outgoing, EntryIds(r.causalHistory));
    NotNamedMembers(outgoing, EntryIds(r.causalHistory));
    if r.bloomFilter.Some? {
      var words := BytesToWords(r.bloomFilter.value, cfg.filter.NumWords());
      if words.Success? {
        ReviewFilterExactly(cfg, words.value, unnamed, acks);
      }
    }
  }

  /** Whatever else the message carries: one that names a buffered message removes
      it and leaves its count as it was. */
  lemma StaleCountSurvives(cfg: Config, c: Core, r: Message, now: nat, m: Message)
    requires Shape(cfg, c.ch) && AckInv(cfg, c) && m in c.ch.outgoing
    requires !Ignored(cfg, c.ch, r) && m.messageId in EntryIds(r.causalHistory)
    ensures var after := CoreReceive(cfg, c, r, now);
            m !in after.ch.outgoing && AckCount(after.ch.acks, m.messageId) == AckCount(c.ch.acks, m.messageId)
  {
    ReceivedFields(cfg, c.ch, r, now);
    ReviewExactly(cfg, c.ch.outgoing, c.ch.acks, r);
    NamedKeepsCount(cfg, c.ch.outgoing, c.ch.acks, r, m.messageId);
  }

  /** A message built under an id is counted exactly from the start if and only if
      no count is left under that id. */
  lemma RebuiltCountExact(cfg: Config, c: Core, payload: Bytes, now: nat, hints: map<MessageId, Bytes>)
    requires Shape(cfg, c.ch) && AckInv(cfg, c) && cfg.messageIdOf(payload) !in Ids(c.ch.outgoing)
    ensures var after := CoreCreate(cfg, c, payload, now, hints);
            var m := ContentCreated(cfg, c.ch, payload, now, hints).1;
            && m in after.ch.outgoing && DistinctIds(after.ch.outgoing) && m.messageId == cfg.messageIdOf(payload)
            && after.ch.acks == c.ch.acks && after.hist.since[m.messageId] == |after.hist.reviewed|
            && (CountedExactly(cfg, after, m) <==> m.messageId !in c.ch.acks)
  {
    IdsSnoc(c.ch.outgoing, ContentCreated(cfg, c.ch, payload, now, hints).1);
    hide DistinctIds, Recent, TakeRepairRequests;
  }

  ghost function ReceivedAll(cfg: Config, c: Core, rs: seq<Message>, now: nat): (r: Core)
    requires Shape(cfg, c.ch)
    ensures Shape(cfg, r.ch)
  {
    if |rs| == 0 then c else CoreReceive(cfg, ReceivedAll(cfg, c, rs[..|rs| - 1], now), rs[|rs| - 1], now)
  }

  /** Every one of them is processed, is a hit for the id, and does not name it. */
  ghost predicate AllHits(cfg: Config, c: Core, rs: seq<Message>, now: nat, id: MessageId)
    requires Shape(cfg, c.ch)
  {
    |rs| == 0 ||
    var p, r := rs[..|rs| - 1], rs[|rs| - 1];
    && AllHits(cfg, c, p, now, id)
    && !Ignored(cfg, ReceivedAll(cfg, c, p, now).ch, r)
    && FilterHas(cfg, r, id) && id !in EntryIds(r.causalHistory)
  }

  /** A buffered message survives `n` more hits exactly when its count and they
      stay below the threshold together. */
  lemma {:induction false} HitsAddToCount(cfg: Config, c: Core, m: Message, rs: seq<Message>, now: nat)
    requires Shape(cfg, c.ch) && DistinctIds(c.ch.outgoing) && m in c.ch.outgoing
    requires AllHits(cfg, c, rs, now, m.messageId)
    ensures var after := ReceivedAll(cfg, c, rs, now);
            && DistinctIds(after.ch.outgoing)
            && |after.hist.reviewed| == |c.hist.reviewed| + |rs|
            && (m in after.ch.outgoing <==>
                |rs| == 0 || AckCount(c.ch.acks, m.messageId) + |rs| < cfg.possibleAcksThreshold)
            && (m in after.ch.outgoing ==>
                  AckCount(after.ch.acks, m.messageId) == AckCount(c.ch.acks, m.messageId) + |rs|)
            && Hits(cfg, after.hist.reviewed, |c.hist.reviewed|, m.messageId) == |rs|
  {
    if |rs| > 0 {
      var p, r := rs[..|rs| - 1], rs[|rs| - 1];
      var before := ReceivedAll(cfg, c, p, now);
      HitsAddToCount(cfg, c, m, p, now);
      OneMoreHit(cfg, before, m, r, now);
      hide CoreReceive, DistinctIds, FilterHas, Ignored, AckCount;
      HitsSnoc(cfg, before.hist.reviewed, r, |c.hist.reviewed|, m.messageId);
    }
  }

  lemma OneMoreHit(cfg: Config, c: Core, m: Message, r: Message, now: nat)
    requires Shape(cfg, c.ch) && DistinctIds(c.ch.outgoing) && !Ignored(cfg, c.ch, r)
    requires FilterHas(cfg, r, m.messageId) && m.messageId !in EntryIds(r.causalHistory)
    ensures var after := CoreReceive(cfg, c, r, now);
            && DistinctIds(after.ch.outgoing)
            && after.hist.reviewed == c.hist.reviewed + [r]
            && (m in after.ch.outgoing <==>
                m in c.ch.outgoing && AckCount(c.ch.acks, m.messageId) + 1 < cfg.possibleAcksThreshold)
            && (m in after.ch.outgoing ==> AckCount(after.ch.acks, m.messageId) == AckCount(c.ch.acks, m.messageId) + 1)
  {
    ReceivedFields(cfg, c.ch, r, now);
    ReviewExactly(cfg, c.ch.outgoing, c.ch.acks, r);
    ReviewShape(cfg, c.ch.outgoing, c.ch.acks, r);
  }

  /** Why a count left behind matters: a message built over a count of `k` leaves at
      its `threshold - k`-th hit, before the threshold. */
  lemma StaleMessageLeavesEarly(
    cfg: Config, c: Core, payload: Bytes, now: nat, hints: map<MessageId, Bytes>, rs: seq<Message>, later: nat)
    requires Shape(cfg, c.ch) && AckInv(cfg, c) && cfg.messageIdOf(payload) !in Ids(c.ch.outgoing)
    requires cfg.messageIdOf(payload) in c.ch.acks
    requires AllHits(cfg, CoreCreate(cfg, c, payload, now, hints), rs, later, cfg.messageIdOf(payload))
    requires |rs| == cfg.possibleAcksThreshold - c.ch.acks[cfg.messageIdOf(payload)]
    ensures var built := CoreCreate(cfg, c, payload, now, hints);
            var after := ReceivedAll(cfg, built, rs, later);
            var m := ContentCreated(cfg, c.ch, payload, now, hints).1;
            && m in built.ch.outgoing && m !in after.ch.outgoing
            && Hits(cfg, after.hist.reviewed, built.hist.since[m.messageId], m.messageId) == |rs|
            && |rs| < cfg.possibleAcksThreshold
  {
    var built := CoreCreate(cfg, c, payload, now, hints);
    var m := ContentCreated(cfg, c.ch, payload, now, hints).1;
    RebuiltCountExact(cfg, c, payload, now, hints);
    hide CoreCreate, ContentCreated, ReceivedAll, AllHits, DistinctIds;
    HitsAddToCount(cfg, built, m, rs, later);
  }
}
