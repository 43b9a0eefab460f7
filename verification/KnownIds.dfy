/** What a participant has processed stays in its filter, and in every filter it
    sends from then on. */
module KnownIds {
  import opened Basics
  import opened Messages
  import opened Bloom
  import opened Channel
  import opened Participant

  ghost predicate FilterKnows(cfg: Config, c: Core) {
    forall id :: id in c.hist.known ==> Contains(cfg.filter, c.ch.filter, id)
  }

  /** The filter a message carries contains, read back from its bytes, every id
      known when the message was built. */
  ghost predicate CarriesKnown(cfg: Config, s: Sent) {
    s.message.bloomFilter.Some? && forall id :: id in s.knows ==>
        BytesContain(cfg.filter, s.message.bloomFilter.value, id)
  }

  ghost predicate KnownInv(cfg: Config, c: Core) {
    FilterKnows(cfg, c) && forall s :: s in c.hist.sent ==> CarriesKnown(cfg, s)
  }

  lemma FilterGrows(cfg: Config, c: Core, id: MessageId, c': Core)
    requires Shape(cfg, c.ch) && FilterKnows(cfg, c)
    requires c'.ch.filter == Inserted(cfg.filter, c.ch.filter, id) && c'.hist.known == c.hist.known + {id}
    ensures FilterKnows(cfg, c')
  {
    forall x | x in c'.hist.known ensures Contains(cfg.filter, c'.ch.filter, x) {
      InsertedContains(cfg.filter, c.ch.filter, id, x);
    }
  }

  lemma BuiltCarries(cfg: Config, c: Core, s: Sent, c': Core)
    requires Shape(cfg, c.ch) && KnownInv(cfg, c)
    requires s.knows == c.hist.known && s.message.bloomFilter == Some(WordsToBytes(c.ch.filter))
    requires c'.ch.filter == c.ch.filter && c'.hist.known == c.hist.known && c'.hist.sent == c.hist.sent + [s]
    ensures KnownInv(cfg, c')
  {
    forall id | id in s.knows ensures BytesContain(cfg.filter, s.message.bloomFilter.value, id) {
      SentFilterContains(cfg.filter, c.ch.filter, id);
    }
    forall t | t in c'.hist.sent ensures CarriesKnown(cfg, t) {
      if t != s { assert t in c.hist.sent; }
    }
  }

  lemma KnownStep(cfg: Config, c: Core, e: Effect)
    requires Shape(cfg, c.ch) && KnownInv(cfg, c)
    ensures KnownInv(cfg, Apply(cfg, c, e))
    ensures c.hist.known <= Apply(cfg, c, e).hist.known
  {
    var c' := Apply(cfg, c, e);
    match e
    case Create(payload, now, hints) =>
      if |c'.hist.sent| > |c.hist.sent| {
        BuiltCarries(cfg, c, c'.hist.sent[|c.hist.sent|], c');
      }
    case Sync(id, now, hints) =>
      if |c'.hist.sent| > |c.hist.sent| {
        BuiltCarries(cfg, c, c'.hist.sent[|c.hist.sent|], c');
      }
    case Commit(m, now) => FilterGrows(cfg, c, m.messageId, c');
    case Receive(m, now) =>
      if !Ignored(cfg, c.ch, m) {
        ReceivedFields(cfg, c.ch, m, now);
        if Parsed(cfg, m) && IsContent(m) {
          FilterGrows(cfg, c, m.messageId, c');
        }
      }
    case Sweep(now) => SweepFrame(cfg, c.ch, |c.ch.incoming|, now);
    case _ =>
  }

  /** In every run: every content message received (and not ignored), and every
      own message committed, is found in the filter and in all filters sent
      after. */
  lemma {:induction false} KnownInEveryRun(cfg: Config, now: nat, groups: nat, actions: seq<Action>)
    requires cfg.Valid()
    ensures KnownInv(cfg, Run(cfg, now, groups, actions).core)
  {
    if |actions| > 0 {
      var before, a := Run(cfg, now, groups, actions[..|actions| - 1]), actions[|actions| - 1];
      KnownInEveryRun(cfg, now, groups, actions[..|actions| - 1]);
      StepIsApply(cfg, before, a);
      KnownStep(cfg, before.core, EffectOf(before, a));
    }
  }
}
