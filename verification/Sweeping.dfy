/** What one sweep of the incoming buffer achieves. */
module Sweeping {
  import opened Basics
  import opened Messages
  import opened LocalHistory
  import opened Channel

  /** Messages with a dependency outside `have`, in order. */
  function Waiting(ms: seq<Message>, have: set<MessageId>): seq<Message> {
    if |ms| == 0 then []
    else
      var p := Waiting(ms[..|ms| - 1], have);
      if EntryIds(ms[|ms| - 1].causalHistory) <= have then p else p + [ms[|ms| - 1]]
  }

  /** The content messages whose dependencies are all in `have`. */
  function Settled(ms: seq<Message>, have: set<MessageId>): seq<Message> {
    if |ms| == 0 then []
    else
      var p := Settled(ms[..|ms| - 1], have);
      var m := ms[|ms| - 1];
      if EntryIds(m.causalHistory) <= have && IsContent(m) then p + [m] else p
  }

  /** Their missing dependencies, message after message. */
  function AllMissing(ms: seq<Message>, have: set<MessageId>): seq<HistoryEntry> {
    if |ms| == 0 then []
    else AllMissing(ms[..|ms| - 1], have) + MissingEntries(ms[|ms| - 1].causalHistory, have)
  }

  lemma {:induction false} WaitingMembers(ms: seq<Message>, have: set<MessageId>)
    ensures forall m :: m in Waiting(ms, have) <==> m in ms && !(EntryIds(m.causalHistory) <= have)
    ensures forall m :: m in Settled(ms, have) <==> m in ms && EntryIds(m.causalHistory) <= have && IsContent(m)
  {
    if |ms| > 0 {
      var p, l := ms[..|ms| - 1], ms[|ms| - 1];
      assert ms == p + [l];
      WaitingMembers(p, have);
    }
  }

  /** Settled messages contribute nothing missing, so the missing entries of the
      buffer are those of the messages that stay. */
  lemma {:induction false} AllMissingOfWaiting(ms: seq<Message>, have: set<MessageId>)
    ensures AllMissing(ms, have) == AllMissing(Waiting(ms, have), have)
  {
    if |ms| > 0 {
      var p, l := ms[..|ms| - 1], ms[|ms| - 1];
      AllMissingOfWaiting(p, have);
      MissingEntriesExactly(l.causalHistory, have);
      var w := Waiting(p, have);
      assert (w + [l])[..|w|] == w;
    }
  }

  /** There is room in the log for what settles: its ids and those of the log,
      counted once each, fit. */
  predicate Roomy(cfg: Config, st: ChannelState) {
    |Ids(st.log) + Ids(Settled(st.incoming, Available(st)))| <= cfg.maxLength
  }

  lemma DeliveredFits(cfg: Config, st: ChannelState, m: Message)
    requires DistinctIds(st.log) && |Ids(st.log) + {m.messageId}| <= cfg.maxLength && IsContent(m)
    ensures var d := Delivered(cfg, st, m);
            && d == st.(clock := d.clock, log := d.log)
            && d.clock == Max(st.clock, m.lamportTimestamp.value)
            && DistinctIds(d.log)
            && Ids(d.log) == Ids(st.log) + {m.messageId}
            && Elems(st.log) <= Elems(d.log) <= Elems(st.log) + {m}
  {
    hide *;
    DeliveredUnfolds(cfg, st, m);
    PushUnlessPresent(st.log, m, cfg.maxLength);
  }

  lemma DeliveredUnfolds(cfg: Config, st: ChannelState, m: Message)
    ensures IsContent(m) ==>
              Delivered(cfg, st, m) ==
              st.(clock := Max(st.clock, m.lamportTimestamp.value),
                  log := if m.messageId in Ids(st.log) then st.log else Pushed(st.log, [m], cfg.maxLength))
    ensures !IsContent(m) ==> Delivered(cfg, st, m) == st
  {
    hide Pushed, Ids;
  }

  ghost predicate SweepSoFar(cfg: Config, st: ChannelState, n: nat, acc: SweepState)
    requires n <= |st.incoming|
  {
    var have, seen := Available(st), st.incoming[..n];
    && acc.st == st.(clock := acc.st.clock, log := acc.st.log)
    && st.clock <= acc.st.clock
    && DistinctIds(acc.st.log)
    && Ids(acc.st.log) == Ids(st.log) + Ids(Settled(seen, have))
    && Elems(st.log) <= Elems(acc.st.log) <= Elems(st.log) + Elems(Settled(seen, have))
    && (forall m :: m in Settled(seen, have) ==> m.lamportTimestamp.Some? && m.lamportTimestamp.value <= acc.st.clock)
    && acc.buffer == Waiting(seen, have)
    && acc.missing == AllMissing(seen, have)
  }

  /** The fold never changes what is available: whatever it adds to the log was
      in the buffer. */
  lemma AvailabilityConstant(cfg: Config, st: ChannelState, n: nat, acc: SweepState)
    requires n <= |st.incoming| && SweepSoFar(cfg, st, n, acc)
    ensures Available(acc.st) == Available(st)
  {
    var s := Settled(st.incoming[..n], Available(st));
    WaitingMembers(st.incoming[..n], Available(st));
    forall x | x in Ids(s) ensures x in Ids(st.incoming) {
      var m :| m in s && m.messageId == x;
      assert m in st.incoming;
    }
  }

  lemma {:induction false} SweepFold(cfg: Config, st: ChannelState, n: nat, now: nat)
    requires cfg.timeoutForLostMessagesMs == 0 && Roomy(cfg, st) && DistinctIds(st.log)
    requires n <= |st.incoming|
    ensures SweepSoFar(cfg, st, n, SweepFirst(cfg, st, n, now))
  {
    hide SweepSoFar, SweepMessage, Roomy, DistinctIds;
    if n == 0 {
      SweepBegins(cfg, st, now);
    } else {
      SweepFold(cfg, st, n - 1, now);
      SweepFoldStep(cfg, st, n - 1, SweepFirst(cfg, st, n - 1, now), now);
    }
  }

  lemma SweepBegins(cfg: Config, st: ChannelState, now: nat)
    requires DistinctIds(st.log)
    ensures SweepSoFar(cfg, st, 0, SweepFirst(cfg, st, 0, now))
  {
    hide DistinctIds, Available;
    assert st.incoming[..0] == [];
    assert Ids(Settled([], Available(st))) == {};
  }

  /** What one more message adds to the three lists. */
  lemma ListsGrow(ms: seq<Message>, n: nat, have: set<MessageId>)
    requires n < |ms|
    ensures var m := ms[n];
            var settles := EntryIds(m.causalHistory) <= have;
            && Waiting(ms[..n + 1], have) == (if settles then Waiting(ms[..n], have) else Waiting(ms[..n], have) + [m])
            && Settled(ms[..n + 1], have) ==
               (if settles && IsContent(m) then Settled(ms[..n], have) + [m] else Settled(ms[..n], have))
            && AllMissing(ms[..n + 1], have) == AllMissing(ms[..n], have) + MissingEntries(m.causalHistory, have)
  {
    hide MissingEntries, EntryIds;
    assert ms[..n + 1][..n] == ms[..n];
  }

  /** What settles early settles, so the room asked for covers it. */
  lemma {:induction false} SettledPrefix(ms: seq<Message>, n: nat, have: set<MessageId>)
    requires n <= |ms|
    ensures Ids(Settled(ms[..n], have)) <= Ids(Settled(ms, have))
  {
    WaitingMembers(ms[..n], have);
    WaitingMembers(ms, have);
    hide Settled, EntryIds;
    forall x | x in Ids(Settled(ms[..n], have)) ensures x in Ids(Settled(ms, have)) {
      var m :| m in Settled(ms[..n], have) && m.messageId == x;
      assert m in ms;
    }
  }

  lemma SweepFoldStep(cfg: Config, st: ChannelState, n: nat, acc: SweepState, now: nat)
    requires cfg.timeoutForLostMessagesMs == 0 && Roomy(cfg, st)
    requires n < |st.incoming| && SweepSoFar(cfg, st, n, acc)
    ensures SweepSoFar(cfg, st, n + 1, SweepMessage(cfg, acc, st.incoming[n], now))
  {
    hide *;
    var have, m := Available(st), st.incoming[n];
    AvailabilityConstant(cfg, st, n, acc);
    SweepMessageIs(cfg, acc, m, now);
    MissingEntriesExactly(m.causalHistory, have);
    ListsGrow(st.incoming, n, have);
    if !(EntryIds(m.causalHistory) <= have) {
      StepWaits(cfg, st, n, acc);
    } else if IsContent(m) {
      RoomFor(cfg, st, n, acc);
      StepSettles(cfg, st, n, acc);
    } else {
      StepDrops(cfg, st, n, acc);
    }
  }

  lemma SweepMessageIs(cfg: Config, acc: SweepState, m: Message, now: nat)
    requires cfg.timeoutForLostMessagesMs == 0
    ensures SweepMessage(cfg, acc, m, now) ==
            if EntryIds(m.causalHistory) <= Available(acc.st) then acc.(st := Delivered(cfg, acc.st, m))
            else acc.(buffer := acc.buffer + [m],
                      missing := acc.missing + MissingEntries(m.causalHistory, Available(acc.st)))
  {
    hide Available, MissingEntries, EntryIds, Delivered;
    MissingEntriesExactly(m.causalHistory, Available(acc.st));
  }

  lemma StepWaits(cfg: Config, st: ChannelState, n: nat, acc: SweepState)
    requires n < |st.incoming| && SweepSoFar(cfg, st, n, acc)
    requires !(EntryIds(st.incoming[n].causalHistory) <= Available(st))
    ensures var m := st.incoming[n];
            SweepSoFar(cfg, st, n + 1,
                       acc.(buffer := acc.buffer + [m],
                            missing := acc.missing + MissingEntries(m.causalHistory, Available(st))))
  {
    hide Available, Settled, Waiting, AllMissing, MissingEntries, DistinctIds, Ids, EntryIds;
    ListsGrow(st.incoming, n, Available(st));
  }

  lemma StepDrops(cfg: Config, st: ChannelState, n: nat, acc: SweepState)
    requires n < |st.incoming| && SweepSoFar(cfg, st, n, acc)
    requires EntryIds(st.incoming[n].causalHistory) <= Available(st) && !IsContent(st.incoming[n])
    ensures SweepSoFar(cfg, st, n + 1, acc.(st := Delivered(cfg, acc.st, st.incoming[n])))
  {
    hide Available, Settled, Waiting, AllMissing, MissingEntries, DistinctIds, Ids, EntryIds, Delivered;
    var m, have := st.incoming[n], Available(st);
    DeliveredUnfolds(cfg, acc.st, m);
    ListsGrow(st.incoming, n, have);
    MissingEntriesExactly(m.causalHistory, have);
  }

  lemma StepSettles(cfg: Config, st: ChannelState, n: nat, acc: SweepState)
    requires n < |st.incoming| && SweepSoFar(cfg, st, n, acc)
    requires EntryIds(st.incoming[n].causalHistory) <= Available(st) && IsContent(st.incoming[n])
    requires |Ids(acc.st.log) + {st.incoming[n].messageId}| <= cfg.maxLength
    ensures SweepSoFar(cfg, st, n + 1, acc.(st := Delivered(cfg, acc.st, st.incoming[n])))
  {
    hide Available, Settled, Waiting, AllMissing, MissingEntries, DistinctIds, Ids, EntryIds, Delivered;
    var m, have := st.incoming[n], Available(st);
    DeliveredFits(cfg, acc.st, m);
    ListsGrow(st.incoming, n, have);
    IdsSnoc(Settled(st.incoming[..n], have), m);
    MissingEntriesExactly(m.causalHistory, have);
  }

  lemma RoomFor(cfg: Config, st: ChannelState, n: nat, acc: SweepState)
    requires Roomy(cfg, st) && n < |st.incoming| && SweepSoFar(cfg, st, n, acc)
    requires var m := st.incoming[n]; EntryIds(m.causalHistory) <= Available(st) && IsContent(m)
    ensures |Ids(acc.st.log) + {st.incoming[n].messageId}| <= cfg.maxLength
  {
    var have, m := Available(st), st.incoming[n];
    hide Available, AllMissing, Settled, Waiting, DistinctIds, EntryIds;
    SettledPrefix(st.incoming, n + 1, have);
    ListsGrow(st.incoming, n, have);
    IdsSnoc(Settled(st.incoming[..n], have), m);
    SubsetSize(Ids(acc.st.log) + {m.messageId}, Ids(st.log) + Ids(Settled(st.incoming, have)));
  }

  /** One sweep, with the lost-message timeout off and room in the log, reaches
      the fixpoint: exactly the messages with a missing dependency stay, in
      order; every content message that goes is in the log; what is returned is
      what the messages that stay are missing; and sweeping again changes
      nothing. */
  lemma SweepReachesFixpoint(cfg: Config, st: ChannelState, now: nat, later: nat)
    requires cfg.timeoutForLostMessagesMs == 0 && Roomy(cfg, st) && DistinctIds(st.log)
    ensures var have := Available(st);
            var (after, missing) := Swept(cfg, st, now);
            && after.incoming == Waiting(st.incoming, have)
            && Ids(after.log) == Ids(st.log) + Ids(Settled(st.incoming, have))
            && Elems(st.log) <= Elems(after.log) <= Elems(st.log) + Elems(Settled(st.incoming, have))
            && after == st.(clock := after.clock, log := after.log, incoming := after.incoming)
            && st.clock <= after.clock
            && (forall m :: m in Settled(st.incoming, have) ==>
                 m.lamportTimestamp.Some? && m.lamportTimestamp.value <= after.clock)
            && missing == AllMissing(after.incoming, have)
            && Swept(cfg, after, later).0 == after
            && Swept(cfg, after, later).1 == AllMissing(after.incoming, Available(after))
  {
    var n := |st.incoming|;
    var have := Available(st);
    SweepFold(cfg, st, n, now);
    assert st.incoming[..n] == st.incoming;
    AllMissingOfWaiting(st.incoming, have);
    var after := Swept(cfg, st, now).0;
    WaitingMembers(st.incoming, have);
    AfterSweepAvailable(cfg, st, now);
    NothingSettles(cfg, after, |after.incoming|, later);
    assert after.incoming[..|after.incoming|] == after.incoming;
    AllMissingOfWaiting(after.incoming, Available(after));
  }

  /** A sweep makes nothing newly available; the only ids it loses belong to sync
      messages it lets go. */
  lemma AfterSweepAvailable(cfg: Config, st: ChannelState, now: nat)
    requires cfg.timeoutForLostMessagesMs == 0 && Roomy(cfg, st) && DistinctIds(st.log)
    ensures Available(Swept(cfg, st, now).0) <= Available(st)
    ensures forall x :: x in Available(st) && x !in Available(Swept(cfg, st, now).0) ==>
              exists m :: m in st.incoming && m.messageId == x && !IsContent(m)
  {
    var n, have := |st.incoming|, Available(st);
    SweepFold(cfg, st, n, now);
    assert st.incoming[..n] == st.incoming;
    WaitingMembers(st.incoming, have);
    var after := Swept(cfg, st, now).0;
    forall x | x in Available(after) ensures x in have {
      if x in Ids(after.incoming) {
        var m :| m in after.incoming && m.messageId == x;
        assert m in st.incoming;
      } else if x !in Ids(st.log) {
        var m :| m in Settled(st.incoming, have) && m.messageId == x;
        assert m in st.incoming;
      }
    }
    forall x | x in have && x !in Available(after)
      ensures exists m :: m in st.incoming && m.messageId == x && !IsContent(m)
    {
      var m :| m in st.incoming && m.messageId == x;
    }
  }

  lemma AllMissingSnoc(ms: seq<Message>, m: Message, have: set<MessageId>)
    ensures AllMissing(ms + [m], have) == AllMissing(ms, have) + MissingEntries(m.causalHistory, have)
  {
    assert (ms + [m])[..|ms|] == ms;
  }

  lemma NoneMissing(have: set<MessageId>)
    ensures AllMissing([], have) == []
  {
  }

  /** When every buffered message misses something, a sweep moves nothing. */
  lemma {:induction false} NothingSettles(cfg: Config, st: ChannelState, n: nat, now: nat)
    requires cfg.timeoutForLostMessagesMs == 0 && n <= |st.incoming|
    requires forall m :: m in st.incoming ==> !(EntryIds(m.causalHistory) <= Available(st))
    ensures SweepFirst(cfg, st, n, now) == SweepState(st, st.incoming[..n], AllMissing(st.incoming[..n], Available(st)))
  {
    hide AllMissing, MissingEntries, Available, SweepMessage, EntryIds;
    if n > 0 {
      var m, p := st.incoming[n - 1], st.incoming[..n - 1];
      NothingSettles(cfg, st, n - 1, now);
      assert m in st.incoming;
      SweepMessageIs(cfg, SweepFirst(cfg, st, n - 1, now), m, now);
      assert st.incoming[..n] == p + [m];
      AllMissingSnoc(p, m, Available(st));
    } else {
      NoneMissing(Available(st));
      assert st.incoming[..0] == [];
    }
  }

  /** The second sweep returns the same entries exactly when every id that a kept
      message names and that was available is in the log, about to be, or on a
      kept message: that is, unless a kept message depends on a sync message the
      first sweep lets go. */
  lemma SecondSweepExact(cfg: Config, st: ChannelState, now: nat, later: nat)
    requires cfg.timeoutForLostMessagesMs == 0 && Roomy(cfg, st) && DistinctIds(st.log)
    ensures var (after, missing) := Swept(cfg, st, now);
            var have, kept := Available(st), Waiting(st.incoming, Available(st));
            Swept(cfg, after, later).1 == missing
            <==> forall m, e :: m in kept && e in m.causalHistory && e.messageId in have ==>
                   e.messageId in Ids(st.log) + Ids(Settled(st.incoming, have)) + Ids(kept)
  {
    hide Swept, Waiting, Settled, AllMissing, Roomy, DistinctIds;
    SweepReachesFixpoint(cfg, st, now, later);
    AfterSweepAvailable(cfg, st, now);
    var after := Swept(cfg, st, now).0;
    AllMissingGrows(after.incoming, Available(after), Available(st));
    assert Available(after) == Ids(st.log) + Ids(Settled(st.incoming, Available(st))) + Ids(after.incoming);
  }

  /** In particular when no buffered message depends on the id of a buffered
      message that is not a content message. */
  lemma SecondSweepReturnsSame(cfg: Config, st: ChannelState, now: nat, later: nat)
    requires cfg.timeoutForLostMessagesMs == 0 && Roomy(cfg, st) && DistinctIds(st.log)
    requires forall m, x :: m in st.incoming && x in st.incoming && x.messageId in EntryIds(m.causalHistory) ==>
              IsContent(x)
    ensures var (after, missing) := Swept(cfg, st, now); Swept(cfg, after, later).1 == missing
  {
    SecondSweepExact(cfg, st, now, later);
    var have := Available(st);
    var kept := Waiting(st.incoming, have);
    WaitingMembers(st.incoming, have);
    hide Swept, Waiting, Settled, Roomy, DistinctIds;
    forall m, e | m in kept && e in m.causalHistory && e.messageId in have && e.messageId !in Ids(st.log)
      ensures e.messageId in Ids(Settled(st.incoming, have)) + Ids(kept)
    {
      var x :| x in st.incoming && x.messageId == e.messageId;
      assert x.messageId in EntryIds(m.causalHistory);
    }
  }

  lemma {:induction false} MissingGrows(deps: seq<HistoryEntry>, small: set<MessageId>, large: set<MessageId>)
    requires small <= large
    ensures |MissingEntries(deps, large)| <= |MissingEntries(deps, small)|
    ensures MissingEntries(deps, small) == MissingEntries(deps, large)
            <==> forall e :: e in deps && e.messageId in large ==> e.messageId in small
    ensures |MissingEntries(deps, small)| == |MissingEntries(deps, large)|
            ==> MissingEntries(deps, small) == MissingEntries(deps, large)
  {
    if |deps| > 0 {
      var p, l := deps[..|deps| - 1], deps[|deps| - 1];
      assert deps == p + [l];
      MissingGrows(p, small, large);
    }
  }

  lemma {:induction false} AllMissingGrows(ms: seq<Message>, small: set<MessageId>, large: set<MessageId>)
    requires small <= large
    ensures |AllMissing(ms, large)| <= |AllMissing(ms, small)|
    ensures AllMissing(ms, small) == AllMissing(ms, large)
            <==> forall m, e :: m in ms && e in m.causalHistory && e.messageId in large ==> e.messageId in small
    ensures |AllMissing(ms, small)| == |AllMissing(ms, large)| ==> AllMissing(ms, small) == AllMissing(ms, large)
  {
    if |ms| > 0 {
      var p, l := ms[..|ms| - 1], ms[|ms| - 1];
      assert ms == p + [l];
      AllMissingGrows(p, small, large);
      MissingGrows(l.causalHistory, small, large);
    }
  }
}
