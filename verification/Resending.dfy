/** Retries, and what a resend does once the first copy is acknowledged. */
module Resending {
  import opened Basics
  import opened Messages
  import opened Channel
  import opened Participant
  import opened Acknowledgements
  import opened Building

  /** A payload still in the outgoing buffer is sent again as the very message
      buffered: nothing is built, and the history records nothing new. */
  lemma RetryReusesBuffered(cfg: Config, c: Core, payload: Bytes, now: nat, hints: map<MessageId, Bytes>)
    requires Shape(cfg, c.ch) && cfg.messageIdOf(payload) in Ids(c.ch.outgoing)
    ensures var (ch, m) := ContentCreated(cfg, c.ch, payload, now, hints);
            && m in c.ch.outgoing && m.messageId == cfg.messageIdOf(payload)
            && ch == c.ch.(clock := ch.clock) && ch.clock > c.ch.clock
            && CoreCreate(cfg, c, payload, now, hints) == c.(ch := ch)
  {
  }

  /** Otherwise the message built names itself exactly when an earlier message of
      the same payload is among the last `causalHistorySize` of the log. */
  lemma SelfDependencyExact(cfg: Config, c: Core, payload: Bytes, now: nat, hints: map<MessageId, Bytes>)
    requires Shape(cfg, c.ch) && cfg.messageIdOf(payload) !in Ids(c.ch.outgoing)
    ensures NamesItself(ContentCreated(cfg, c.ch, payload, now, hints).1)
            <==> AmongNewest(c.ch.log, cfg.causalHistorySize, cfg.messageIdOf(payload))
  {
    RecentAreNewest(c.ch.log, cfg.causalHistorySize, cfg.messageIdOf(payload));
    hide AmongNewest, Recent;
  }

  /** The retry guard looks at the outgoing buffer only, so it does not cover a
      resend after the acknowledgement. Whatever message names the payload's id,
      content or sync: the message then built names itself exactly when the id is
      among the last `causalHistorySize` of the log as that message leaves it, and only a
      content message delivered at once changes the log. */
  lemma AcknowledgedResendNamesItself(
    cfg: Config, c: Core, r: Message, now: nat, payload: Bytes, later: nat, hints: map<MessageId, Bytes>)
    requires Shape(cfg, c.ch) && DistinctIds(c.ch.outgoing)
    requires !Ignored(cfg, c.ch, r) && cfg.messageIdOf(payload) in EntryIds(r.causalHistory)
    ensures var after := CoreReceive(cfg, c, r, now).ch;
            && (NamesItself(ContentCreated(cfg, after, payload, later, hints).1)
                <==> AmongNewest(after.log, cfg.causalHistorySize, cfg.messageIdOf(payload)))
            && after.log == if DeliveredAtOnce(cfg, c.ch, r) then Delivered(cfg, c.ch, r).log else c.ch.log
  {
    hide Received, ReviewAckStatus, Delivered, DistinctIds, Recent, ContentCreated, Available, AmongNewest;
    ReceivedFields(cfg, c.ch, r, now);
    DeliveredFrame(cfg, c.ch, r);
    ReviewExactly(cfg, c.ch.outgoing, c.ch.acks, r);
    var after := CoreReceive(cfg, c, r, now);
    assert cfg.messageIdOf(payload) !in Ids(after.ch.outgoing);
    SelfDependencyExact(cfg, after, payload, later, hints);
  }
}
