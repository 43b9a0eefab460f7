/** What a message says when it is built, in terms of the state it is built in. */
module Building {
  import opened Basics
  import opened Messages
  import opened Bloom
  import opened LocalHistory
  import opened RepairBuffers
  import Repair
  import opened Channel
  import opened Participant

  // The clock.

  /** The least number above the old clock and not below the time. */
  predicate Advances(clock: nat, now: nat, next: nat) {
    next > clock && next >= now && (next == clock + 1 || next == now)
  }

  lemma ClockAdvances(clock: nat, now: nat)
    ensures Advances(clock, now, LamportTimestampIncrement(clock, now))
  {
  }

  // The causal history.

  /** The entries are the last `size` messages of the log, all of them when there
      are fewer or when `size` is zero, in log order. */
  ghost predicate NamesNewest(log: seq<Message>, size: nat, entries: seq<HistoryEntry>) {
    && |entries| == (if size == 0 || |log| < size then |log| else size)
    && forall i :: 0 <= i < |entries| ==>
         && entries[i].messageId == log[|log| - |entries| + i].messageId
         && entries[i].senderId == Some(log[|log| - |entries| + i].senderId)
  }

  lemma RecentIsTail(log: seq<Message>, size: nat)
    ensures var r := Recent(log, size);
            && |r| == (if size == 0 || |log| < size then |log| else size)
            && forall i :: 0 <= i < |r| ==> r[i] == log[|log| - |r| + i]
  {
    if size == 0 || |log| <= size {
      assert Recent(log, size) == log;
    } else {
      assert Recent(log, size) == log[|log| - size..];
    }
  }

  lemma RecentEntries(log: seq<Message>, size: nat, hints: map<MessageId, Bytes>)
    ensures NamesNewest(log, size, EntriesFor(Recent(log, size), hints))
  {
    RecentIsTail(log, size);
    hide EntriesFor, Recent;
  }

  /** Of a log sorted by key, whatever is left out sorts before whatever is named. */
  lemma NewestAreGreatest(log: seq<Message>, size: nat, entries: seq<HistoryEntry>, a: Message, b: Message)
    requires StrictlySorted(log) && DistinctIds(log) && NamesNewest(log, size, entries)
    requires a in log && b in log && a.messageId !in EntryIds(entries) && b.messageId in EntryIds(entries)
    ensures KeyLt(a, b)
  {
    hide KeyLt;
    var i :| 0 <= i < |log| && log[i] == a;
    var j :| 0 <= j < |log| && log[j] == b;
    var cut := |log| - |entries|;
    var e :| e in entries && e.messageId == b.messageId;
    var k :| 0 <= k < |entries| && entries[k] == e;
    assert log[cut + k].messageId == log[j].messageId;
    forall l | cut <= l < |log| ensures log[l].messageId in EntryIds(entries) {
      assert entries[l - cut] in entries && entries[l - cut].messageId == log[cut + (l - cut)].messageId;
    }
  }

  /** The greatest message of the log is always named, unless there is none. */
  lemma GreatestIsNamed(log: seq<Message>, size: nat, entries: seq<HistoryEntry>)
    requires NamesNewest(log, size, entries) && |log| > 0
    ensures |entries| > 0 && entries[|entries| - 1].messageId == log[|log| - 1].messageId
    ensures log[|log| - 1].messageId in EntryIds(entries)
  {
    assert entries[|entries| - 1] in entries;
  }

  /** The named include the greatest message of the log, and the others all sort
      before every one of them. */
  ghost predicate NamesGreatest(log: seq<Message>, named: set<MessageId>) {
    && (exists g :: g in log && g.messageId in named && forall x :: x in log && x != g ==> KeyLt(x, g))
    && forall a, b :: a in log && b in log && a.messageId !in named && b.messageId in named ==> KeyLt(a, b)
  }

  lemma NewestNamed(log: seq<Message>, size: nat, entries: seq<HistoryEntry>)
    requires StrictlySorted(log) && DistinctIds(log) && NamesNewest(log, size, entries) && |log| > 0
    ensures NamesGreatest(log, EntryIds(entries))
  {
    hide KeyLt, EntryIds, NamesNewest;
    var g := log[|log| - 1];
    GreatestIsNamed(log, size, entries);
    forall x | x in log && x != g ensures KeyLt(x, g) {
      var i :| 0 <= i < |log| && log[i] == x;
    }
    forall a, b | a in log && b in log && a.messageId !in EntryIds(entries) && b.messageId in EntryIds(entries)
      ensures KeyLt(a, b)
    {
      NewestAreGreatest(log, size, entries, a, b);
    }
  }

  /** An id is among the last `size` messages of the log, or anywhere in it when
      `size` is zero. */
  ghost predicate AmongNewest(log: seq<Message>, size: nat, id: MessageId) {
    exists i :: 0 <= i < |log| && (size == 0 || |log| - i <= size) && log[i].messageId == id
  }

  lemma RecentAreNewest(log: seq<Message>, size: nat, id: MessageId)
    ensures id in Ids(Recent(log, size)) <==> AmongNewest(log, size, id)
  {
    RecentIsTail(log, size);
    hide Recent;
    var r := Recent(log, size);
    if id in Ids(r) {
      var m :| m in r && m.messageId == id;
      var k :| 0 <= k < |r| && r[k] == m;
      assert log[|log| - |r| + k].messageId == id;
    }
    if AmongNewest(log, size, id) {
      var i :| 0 <= i < |log| && (size == 0 || |log| - i <= size) && log[i].messageId == id;
      assert r[i - (|log| - |r|)] in r;
    }
  }

  // Repair requests.

  /** The entries of the slots whose flag went up, in buffer order. */
  ghost function NewlyMarked(before: seq<Slot>, after: seq<Slot>): seq<HistoryEntry>
    requires |before| == |after|
  {
    if |before| == 0 then []
    else
      (if !before[0].requested && after[0].requested then [after[0].entry] else [])
      + NewlyMarked(before[1..], after[1..])
  }

  /** Up to `max` slots that were due and not yet requested get marked, earlier ones
      first, and nothing else happens; fewer than `max` only if none is left. */
  ghost predicate Takes(before: seq<Slot>, after: seq<Slot>, taken: seq<HistoryEntry>, now: nat, max: nat) {
    && |before| == |after|
    && taken == NewlyMarked(before, after) && |taken| <= max
    && (forall i :: 0 <= i < |before| ==>
          after[i] == before[i] || (after[i] == before[i].(requested := true) && before[i].due <= now))
    && (forall i, j :: 0 <= i < j < |before| && !before[j].requested && after[j].requested && before[i].due <= now ==>
          after[i].requested)
    && (|taken| < max ==> forall i :: 0 <= i < |after| && after[i].due <= now ==> after[i].requested)
  }

  lemma {:induction false} MarkedTakes(items: seq<Slot>, now: nat, max: nat)
    ensures Takes(items, Marked(items, now, max), Chosen(items, now, max), now, max)
  {
    if |items| > 0 {
      var pick := IsEligible(items[0], now) && max > 0;
      var left := if pick then max - 1 else max;
      MarkedTakes(items[1..], now, left);
      var after, rest := Marked(items, now, max), Marked(items[1..], now, left);
      assert after == [if pick then items[0].(requested := true) else items[0]] + rest;
      assert after[1..] == rest;
      NewlyMarkedUnfold(items, after);
      TakesSnoc(items, after, Chosen(items[1..], now, left), now, max);
    }
  }

  lemma NewlyMarkedUnfold(before: seq<Slot>, after: seq<Slot>)
    requires |before| == |after| && |before| > 0
    ensures NewlyMarked(before, after) ==
            (if !before[0].requested && after[0].requested then [after[0].entry] else [])
            + NewlyMarked(before[1..], after[1..])
  {
  }

  lemma {:induction false} NoneNewly(before: seq<Slot>, after: seq<Slot>)
    requires |before| == |after| && NewlyMarked(before, after) == []
    ensures forall i :: 0 <= i < |before| && after[i].requested ==> before[i].requested
  {
    if |before| > 0 {
      NoneNewly(before[1..], after[1..]);
      assert forall i :: 0 < i < |before| ==> before[i] == before[1..][i - 1] && after[i] == after[1..][i - 1];
    }
  }

  lemma TakesSnoc(before: seq<Slot>, after: seq<Slot>, rest: seq<HistoryEntry>, now: nat, max: nat)
    requires |before| == |after| && |before| > 0
    requires var pick := IsEligible(before[0], now) && max > 0;
      && after[0] == (if pick then before[0].(requested := true) else before[0])
      && Takes(before[1..], after[1..], rest, now, if pick then max - 1 else max)
    ensures var head := if IsEligible(before[0], now) && max > 0 then [before[0].entry] else [];
            Takes(before, after, head + rest, now, max)
  {
    hide NewlyMarked;
    NewlyMarkedUnfold(before, after);
    if max == 0 { NoneNewly(before[1..], after[1..]); }
    assert forall i :: 0 < i < |before| ==> before[i] == before[1..][i - 1] && after[i] == after[1..][i - 1];
  }

  /** What the repair layer contributes to a message: with repair on, at most three
      requests. */
  ghost predicate TakesRequests(cfg: Config, before: seq<Slot>, after: seq<Slot>, taken: seq<HistoryEntry>, now: nat) {
    if cfg.repairEnabled then Takes(before, after, taken, now, 3) else after == before && taken == []
  }

  lemma RequestsTaken(cfg: Config, repair: Repair.RepairState, now: nat)
    ensures var (after, taken) := TakeRepairRequests(cfg, repair, now);
            && TakesRequests(cfg, repair.requests, after.requests, taken, now)
            && after.responses == repair.responses && after.groups == repair.groups
  {
    hide Takes;
    MarkedTakes(repair.requests, now, 3);
  }

  // Messages.

  /** The filter sent is the filter held. */
  ghost predicate CarriesFilter(cfg: Config, filter: seq<nat>, m: Message) {
    m.bloomFilter.Some? && BytesToWords(m.bloomFilter.value, cfg.filter.NumWords()) == Success(filter)
  }

  lemma FilterCarried(cfg: Config, filter: seq<nat>, m: Message)
    requires WellSized(cfg.filter, filter) && m.bloomFilter == Some(WordsToBytes(filter))
    ensures CarriesFilter(cfg, filter, m)
  {
    BytesRoundTrip(filter, []);
    assert WordsToBytes(filter) + [] == WordsToBytes(filter);
  }

  /** Each entry carries the hint there is for its message. */
  ghost predicate CarriesHints(entries: seq<HistoryEntry>, hints: map<MessageId, Bytes>) {
    forall e :: e in entries ==> e.retrievalHint == if e.messageId in hints then Some(hints[e.messageId]) else None
  }

  /** A message built in a state: whose it is, when, what it names, and what it
      carries; and what building it does to the state. */
  ghost predicate BuiltIn(
    cfg: Config, st: ChannelState, after: ChannelState, m: Message, now: nat, hints: map<MessageId, Bytes>)
  {
    && m.channelId == cfg.channelId && m.senderId == cfg.senderId
    && m.lamportTimestamp == Some(after.clock)
    && Advances(st.clock, now, after.clock)
    && NamesNewest(st.log, cfg.causalHistorySize, m.causalHistory)
    && CarriesHints(m.causalHistory, hints)
    && CarriesFilter(cfg, st.filter, m)
    && TakesRequests(cfg, st.repair.requests, after.repair.requests, m.repairRequest, now)
    && after == st.(clock := after.clock, outgoing := after.outgoing,
                    repair := st.repair.(requests := after.repair.requests))
  }

  /** Asked to send a payload that is not waiting for acknowledgement: the message
      carries all of it, under its id, and is buffered last. */
  lemma ContentIsBuilt(cfg: Config, st: ChannelState, payload: Bytes, now: nat, hints: map<MessageId, Bytes>)
    requires Shape(cfg, st) && cfg.messageIdOf(payload) !in Ids(st.outgoing)
    ensures var (after, m) := ContentCreated(cfg, st, payload, now, hints);
            && m.messageId == cfg.messageIdOf(payload) && m.content == Some(payload)
            && BuiltIn(cfg, st, after, m, now, hints) && after.outgoing == st.outgoing + [m]
  {
    hide Recent, EntriesFor, TakesRequests, NamesNewest, WordsToBytes, BytesToWords;
    ClockAdvances(st.clock, now);
    RecentEntries(st.log, cfg.causalHistorySize, hints);
    RequestsTaken(cfg, st.repair, now);
    FilterCarried(cfg, st.filter, ContentCreated(cfg, st, payload, now, hints).1);
  }

  /** A sync message is built exactly when there is something in the log to name, or
      a request to make; it carries no content. The clock moves and requests are
      taken either way. */
  lemma SyncIsBuilt(cfg: Config, st: ChannelState, id: MessageId, now: nat, hints: map<MessageId, Bytes>)
    requires Shape(cfg, st)
    ensures var (after, m) := SyncCreated(cfg, st, id, now, hints);
            && (m.Some? <==>
                || |st.log| > 0
                || (cfg.repairEnabled && exists s :: s in st.repair.requests && s.due <= now && !s.requested))
            && (m.Some? ==>
                && m.value.messageId == id && m.value.content.None?
                && BuiltIn(cfg, st, after, m.value, now, hints) && after.outgoing == st.outgoing)
            && (m.None? ==> after == st.(clock := after.clock) && Advances(st.clock, now, after.clock))
  {
    var (after, m) := SyncCreated(cfg, st, id, now, hints);
    var entries := EntriesFor(Recent(st.log, cfg.causalHistorySize), hints);
    RecentEntries(st.log, cfg.causalHistorySize, hints);
    RequestsTaken(cfg, st.repair, now);
    if cfg.repairEnabled {
      Repair.NothingChosen(st.repair.requests, now, 3);
      if Chosen(st.repair.requests, now, 3) == [] {
        NoneMarked(st.repair.requests, now, 3);
      }
    }
    ClockAdvances(st.clock, now);
    if m.Some? { FilterCarried(cfg, st.filter, m.value); }
    hide Recent, EntriesFor, TakesRequests, WordsToBytes, BytesToWords, Chosen, Marked;
  }

  lemma {:induction false} NoneMarked(items: seq<Slot>, now: nat, max: nat)
    requires Chosen(items, now, max) == []
    ensures Marked(items, now, max) == items
  {
    if |items| > 0 {
      NoneMarked(items[1..], now, max);
      assert items == [items[0]] + items[1..];
    }
  }
}
