/** The two bounded, time-sorted buffers of the repair layer: requests this node
    still has to send, and responses it still owes. */
module RepairBuffers {
  import opened Basics
  import opened Messages
  import opened Sorting

  /** An entry and the time it falls due. Only requests are ever marked. */
  datatype Slot = Slot(entry: HistoryEntry, due: nat, requested: bool)

  predicate DueLeq(a: Slot, b: Slot) {
    a.due <= b.due
  }

  lemma DueOrderIsTotal()
    ensures TotalPreorder(DueLeq)
  {
  }

  function SlotIds(items: seq<Slot>): set<MessageId> {
    set s | s in items :: s.entry.messageId
  }

  ghost predicate DistinctSlots(items: seq<Slot>) {
    forall i, j :: 0 <= i < j < |items| ==> items[i].entry.messageId != items[j].entry.messageId
  }

  /** What every run keeps: time order, one slot per id, the size bound. */
  ghost predicate BufferInv(items: seq<Slot>, maxSize: nat) {
    Sorted(items, DueLeq) && DistinctSlots(items) && |items| <= maxSize
  }

  function Entries(items: seq<Slot>): (r: seq<HistoryEntry>)
    ensures |r| == |items|
    ensures forall i :: 0 <= i < |r| ==> r[i] == items[i].entry
  {
    seq(|items|, i requires 0 <= i < |items| => items[i].entry)
  }

  // Adding and removing.

  /** `add`: an id already present keeps its time; a full buffer first drops its
      last slot, even when the newcomer is due later still. A buffer of size
      zero throws on that path. */
  function Added(items: seq<Slot>, entry: HistoryEntry, due: nat, maxSize: nat): seq<Slot>
    requires maxSize >= 1
  {
    if entry.messageId in SlotIds(items) then items
    else
      var room := if |items| >= maxSize then items[..|items| - 1] else items;
      StableSort(room + [Slot(entry, due, false)], DueLeq)
  }

  function Removed(items: seq<Slot>, id: MessageId): seq<Slot> {
    if |items| == 0 then []
    else
      var p := Removed(items[..|items| - 1], id);
      if items[|items| - 1].entry.messageId == id then p else p + [items[|items| - 1]]
  }

  lemma {:induction false} InsertKeepsDistinct(items: seq<Slot>, s: Slot)
    requires DistinctSlots(items) && s.entry.messageId !in SlotIds(items)
    ensures DistinctSlots(InsertSorted(items, s, DueLeq))
  {
    if |items| == 0 || DueLeq(items[|items| - 1], s) {
    } else {
      var p, l := items[..|items| - 1], items[|items| - 1];
      assert forall x :: x in p ==> x in items;
      InsertKeepsDistinct(p, s);
      InsertSortedContents(p, s, DueLeq);
      var r := InsertSorted(p, s, DueLeq);
      assert InsertSorted(items, s, DueLeq) == r + [l];
      hide InsertSorted;
      forall i | 0 <= i < |r| ensures r[i].entry.messageId != l.entry.messageId {
        assert r[i] in Elems(r);
        if r[i] in p {
          var k :| 0 <= k < |p| && p[k] == r[i];
          assert items[k].entry.messageId != items[|items| - 1].entry.messageId;
        }
      }
    }
  }

  lemma AddedIsInsertion(items: seq<Slot>, entry: HistoryEntry, due: nat, maxSize: nat)
    requires maxSize >= 1 && Sorted(items, DueLeq) && entry.messageId !in SlotIds(items)
    ensures var room := if |items| >= maxSize then items[..|items| - 1] else items;
            Added(items, entry, due, maxSize) == InsertSorted(room, Slot(entry, due, false), DueLeq)
  {
    var room := if |items| >= maxSize then items[..|items| - 1] else items;
    StableSortSnoc(room, Slot(entry, due, false), DueLeq);
  }

  /** Adding keeps the invariant; the newcomer is in, at its time; whoever was
      present keeps its slot, except at most the one evicted. */
  lemma AddedKeeps(items: seq<Slot>, entry: HistoryEntry, due: nat, maxSize: nat)
    requires maxSize >= 1 && BufferInv(items, maxSize)
    ensures BufferInv(Added(items, entry, due, maxSize), maxSize)
    ensures entry.messageId in SlotIds(Added(items, entry, due, maxSize))
    ensures entry.messageId in SlotIds(items) ==> Added(items, entry, due, maxSize) == items
    ensures entry.messageId !in SlotIds(items) ==>
              Elems(Added(items, entry, due, maxSize)) ==
              Elems(if |items| >= maxSize then items[..|items| - 1] else items) + {Slot(entry, due, false)}
  {
    if entry.messageId !in SlotIds(items) {
      var room := if |items| >= maxSize then items[..|items| - 1] else items;
      var s := Slot(entry, due, false);
      AddedIsInsertion(items, entry, due, maxSize);
      DueOrderIsTotal();
      InsertSortedContents(room, s, DueLeq);
      InsertSortedSorted(room, s, DueLeq);
      assert forall x :: x in room ==> x in items;
      InsertKeepsDistinct(room, s);
      assert s in Elems(Added(items, entry, due, maxSize));
    }
  }

  /** Exactly the slots of that id go. */
  lemma {:induction false} RemovedExactly(items: seq<Slot>, id: MessageId)
    ensures forall s :: s in Removed(items, id) <==> s in items && s.entry.messageId != id
    ensures |Removed(items, id)| <= |items|
  {
    if |items| > 0 {
      var p, l := items[..|items| - 1], items[|items| - 1];
      assert items == p + [l];
      RemovedExactly(p, id);
    }
  }

  lemma {:induction false} RemovedAbsent(items: seq<Slot>, id: MessageId)
    requires id !in SlotIds(items)
    ensures Removed(items, id) == items
  {
    if |items| > 0 {
      var p := items[..|items| - 1];
      assert items == p + [items[|items| - 1]];
      assert forall s :: s in p ==> s in items;
      RemovedAbsent(p, id);
    }
  }

  lemma {:induction false} RemovedKeeps(items: seq<Slot>, id: MessageId, maxSize: nat)
    requires BufferInv(items, maxSize)
    ensures BufferInv(Removed(items, id), maxSize)
  {
    RemovedExactly(items, id);
    if |items| > 0 {
      var p, l := items[..|items| - 1], items[|items| - 1];
      RemovedKeeps(p, id, maxSize);
      RemovedExactly(p, id);
      var r := Removed(p, id);
      forall i | 0 <= i < |r| ensures DueLeq(r[i], l) && r[i].entry.messageId != l.entry.messageId {
        assert r[i] in p;
        var k :| 0 <= k < |p| && p[k] == r[i];
        assert items[k] == r[i];
      }
    }
  }

  // Every run of adds keeps the earliest.

  datatype Addition = Addition(entry: HistoryEntry, due: nat)

  function SlotsOf(adds: seq<Addition>): (r: seq<Slot>)
    ensures |r| == |adds|
    ensures forall i :: 0 <= i < |r| ==> r[i] == Slot(adds[i].entry, adds[i].due, false)
  {
    seq(|adds|, i requires 0 <= i < |adds| => Slot(adds[i].entry, adds[i].due, false))
  }

  function AddAll(adds: seq<Addition>, maxSize: nat): seq<Slot>
    requires maxSize >= 1
  {
    if |adds| == 0 then []
    else
      var last := adds[|adds| - 1];
      Added(AddAll(adds[..|adds| - 1], maxSize), last.entry, last.due, maxSize)
  }

  ghost predicate DistinctAdditions(adds: seq<Addition>) {
    forall i, j :: 0 <= i < j < |adds| ==> adds[i].entry.messageId != adds[j].entry.messageId
  }

  /** Truncating a sorted list and then inserting agrees, up to the cut, with
      inserting into the whole list. */
  lemma {:induction false} InsertPrefix(all: seq<Slot>, s: Slot, k: nat)
    requires Sorted(all, DueLeq) && k <= |all|
    ensures |InsertSorted(all, s, DueLeq)| >= k && |InsertSorted(all[..k], s, DueLeq)| >= k
    ensures InsertSorted(all, s, DueLeq)[..k] == InsertSorted(all[..k], s, DueLeq)[..k]
  {
    InsertSortedContents(all, s, DueLeq);
    InsertSortedContents(all[..k], s, DueLeq);
    if k < |all| {
      var p, l := all[..|all| - 1], all[|all| - 1];
      if DueLeq(l, s) {
        if k > 0 { assert DueLeq(all[k - 1], l); }
      } else {
        InsertPrefix(p, s, k);
        InsertSortedContents(p, s, DueLeq);
        assert p[..k] == all[..k];
      }
    } else {
      assert all[..k] == all;
    }
  }

  /** What a run of additions has kept: as many slots as fit, of which the first
      `maxSize - 1` are the earliest ever added, ties by arrival. */
  ghost predicate KeepsEarliest(buffer: seq<Slot>, added: seq<Slot>, maxSize: nat)
    requires maxSize >= 1
  {
    && BufferInv(buffer, maxSize)
    && Elems(buffer) <= Elems(added)
    && |buffer| == Min(maxSize, |added|)
    && FirstN(buffer, maxSize - 1) == FirstN(StableSort(added, DueLeq), maxSize - 1)
  }

  lemma EarliestStep(buffer: seq<Slot>, added: seq<Slot>, s: Slot, maxSize: nat)
    requires maxSize >= 1 && KeepsEarliest(buffer, added, maxSize)
    requires !s.requested && s.entry.messageId !in SlotIds(buffer)
    ensures KeepsEarliest(Added(buffer, s.entry, s.due, maxSize), added + [s], maxSize)
  {
    AddedKeeps(buffer, s.entry, s.due, maxSize);
    AddedIsInsertion(buffer, s.entry, s.due, maxSize);
    ElemsAppend(added, [s]);
    var room := if |buffer| >= maxSize then buffer[..|buffer| - 1] else buffer;
    InsertSortedContents(room, s, DueLeq);
    EarliestPrefix(buffer, added, s, maxSize);
  }

  lemma EarliestPrefix(buffer: seq<Slot>, added: seq<Slot>, s: Slot, maxSize: nat)
    requires maxSize >= 1 && |buffer| == Min(maxSize, |added|)
    requires FirstN(buffer, maxSize - 1) == FirstN(StableSort(added, DueLeq), maxSize - 1)
    ensures var room := if |buffer| >= maxSize then buffer[..|buffer| - 1] else buffer;
            FirstN(InsertSorted(room, s, DueLeq), maxSize - 1) == FirstN(StableSort(added + [s], DueLeq), maxSize - 1)
  {
    var all := StableSort(added, DueLeq);
    DueOrderIsTotal();
    StableSortContents(added, DueLeq);
    StableSortSorted(added, DueLeq);
    assert (added + [s])[..|added|] == added;
    InsertSortedContents(all, s, DueLeq);
    if |buffer| >= maxSize {
      assert buffer[..|buffer| - 1] == all[..maxSize - 1];
      InsertPrefix(all, s, maxSize - 1);
    } else {
      assert buffer == all;
    }
  }

  /** However many additions of distinct ids are made. */
  lemma {:induction false} EarliestKept(adds: seq<Addition>, maxSize: nat)
    requires maxSize >= 1 && DistinctAdditions(adds)
    ensures KeepsEarliest(AddAll(adds, maxSize), SlotsOf(adds), maxSize)
  {
    if |adds| > 0 {
      var p, l := adds[..|adds| - 1], adds[|adds| - 1];
      EarliestKept(p, maxSize);
      assert SlotsOf(adds) == SlotsOf(p) + [Slot(l.entry, l.due, false)];
      forall x | x in AddAll(p, maxSize) ensures x.entry.messageId != l.entry.messageId {
        assert x in Elems(SlotsOf(p));
        var k :| 0 <= k < |p| && SlotsOf(p)[k] == x;
        assert adds[k].entry.messageId != adds[|adds| - 1].entry.messageId;
      }
      EarliestStep(AddAll(p, maxSize), SlotsOf(p), Slot(l.entry, l.due, false), maxSize);
    }
  }

  /** The `maxSize` earliest survive an addition exactly when there was room or
      the newcomer is due before the slot that is evicted. */
  lemma EvictionExact(items: seq<Slot>, entry: HistoryEntry, due: nat, maxSize: nat)
    requires maxSize >= 1 && BufferInv(items, maxSize) && entry.messageId !in SlotIds(items)
    ensures Added(items, entry, due, maxSize) == FirstN(StableSort(items + [Slot(entry, due, false)], DueLeq), maxSize)
            <==> |items| < maxSize || due < items[maxSize - 1].due
  {
    var s := Slot(entry, due, false);
    StableSortSnoc(items, s, DueLeq);
    AddedIsInsertion(items, entry, due, maxSize);
    AddedKeeps(items, entry, due, maxSize);
    InsertSortedContents(items, s, DueLeq);
    if |items| == maxSize {
      InsertSortedContents(items[..maxSize - 1], s, DueLeq);
      if due >= items[maxSize - 1].due {
        assert FirstN(items + [s], maxSize) == items;
        assert s in Elems(Added(items, entry, due, maxSize));
        assert s !in items;
      }
    }
  }

  // Requests that have fallen due.

  predicate IsEligible(s: Slot, now: nat) {
    s.due <= now && !s.requested
  }

  /** The naive filter. */
  function EligibleSlots(items: seq<Slot>, now: nat): seq<Slot> {
    if |items| == 0 then []
    else (if IsEligible(items[0], now) then [items[0]] else []) + EligibleSlots(items[1..], now)
  }

  /** The entries picked for requesting. */
  function Chosen(items: seq<Slot>, now: nat, max: nat): seq<HistoryEntry> {
    if |items| == 0 then []
    else if IsEligible(items[0], now) && max > 0 then [items[0].entry] + Chosen(items[1..], now, max - 1)
    else Chosen(items[1..], now, max)
  }

  /** They are the first `max` the naive filter gives. */
  lemma {:induction false} ChosenIsFirstEligible(items: seq<Slot>, now: nat, max: nat)
    ensures Chosen(items, now, max) == Entries(FirstN(EligibleSlots(items, now), max))
  {
    if |items| > 0 {
      ChosenIsFirstEligible(items[1..], now, max);
      if max > 0 { ChosenIsFirstEligible(items[1..], now, max - 1); }
    }
  }

  /** The buffer with the first `max` eligible slots marked. */
  function Marked(items: seq<Slot>, now: nat, max: nat): (r: seq<Slot>)
    ensures |r| == |items|
  {
    if |items| == 0 then []
    else if IsEligible(items[0], now) && max > 0 then [items[0].(requested := true)] + Marked(items[1..], now, max - 1)
    else [items[0]] + Marked(items[1..], now, max)
  }

  /** Marking touches nothing but flags, and what is left to request is what the
      filter gave beyond the first `max`: nothing is requested twice in a stay. */
  lemma {:induction false} MarkedEffect(items: seq<Slot>, now: nat, max: nat)
    ensures forall i :: 0 <= i < |items| ==> Marked(items, now, max)[i].entry == items[i].entry
    ensures forall i :: 0 <= i < |items| ==> Marked(items, now, max)[i].due == items[i].due
    ensures EligibleSlots(Marked(items, now, max), now) ==
            EligibleSlots(items, now)[|FirstN(EligibleSlots(items, now), max)|..]
  {
    if |items| > 0 {
      var e := EligibleSlots(items[1..], now);
      var next := if IsEligible(items[0], now) && max > 0 then max - 1 else max;
      MarkedEffect(items[1..], now, next);
      var m := Marked(items, now, max);
      assert m[1..] == Marked(items[1..], now, next);
      if IsEligible(items[0], now) {
        if max > 0 {
          assert EligibleSlots(items, now)[|FirstN(EligibleSlots(items, now), max)|..] == e[|FirstN(e, max - 1)|..];
        } else {
          assert e[0..] == e;
        }
      }
    }
  }

  lemma MarkedKeeps(items: seq<Slot>, now: nat, max: nat, maxSize: nat)
    requires BufferInv(items, maxSize)
    ensures BufferInv(Marked(items, now, max), maxSize)
    ensures SlotIds(Marked(items, now, max)) == SlotIds(items)
  {
    MarkedEffect(items, now, max);
    var m := Marked(items, now, max);
    forall x ensures x in SlotIds(m) <==> x in SlotIds(items) {
      if x in SlotIds(m) {
        var s :| s in m && s.entry.messageId == x;
        var i :| 0 <= i < |m| && m[i] == s;
        assert items[i] in items;
      }
      if x in SlotIds(items) {
        var s :| s in items && s.entry.messageId == x;
        var i :| 0 <= i < |items| && items[i] == s;
        assert m[i] in m;
      }
    }
  }

  /** The scan has dealt with the first `i` slots. */
  ghost predicate Scanned(start: seq<Slot>, now: nat, max: nat, i: nat, eligible: seq<HistoryEntry>, items: seq<Slot>) {
    && i <= |start| == |items| && |eligible| <= max
    && items[i..] == start[i..]
    && Chosen(start, now, max) == eligible + Chosen(start[i..], now, max - |eligible|)
    && Marked(start, now, max) == items[..i] + Marked(start[i..], now, max - |eligible|)
  }

  lemma ScanStart(start: seq<Slot>, now: nat, max: nat)
    ensures Scanned(start, now, max, 0, [], start)
  {
    assert start[0..] == start;
  }

  lemma ScanUnfold(start: seq<Slot>, i: nat, now: nat, max: nat)
    requires i < |start|
    ensures var pick := IsEligible(start[i], now) && max > 0;
            var left := if pick then max - 1 else max;
            && Chosen(start[i..], now, max) ==
                 (if pick then [start[i].entry] else []) + Chosen(start[i + 1..], now, left)
            && Marked(start[i..], now, max) ==
               [if pick then start[i].(requested := true) else start[i]] + Marked(start[i + 1..], now, left)
  {
    assert start[i..][1..] == start[i + 1..];
  }

  lemma ScanAdvance(start: seq<Slot>, now: nat, max: nat, i: nat, eligible: seq<HistoryEntry>, items: seq<Slot>)
    requires Scanned(start, now, max, i, eligible, items) && i < |start| && start[i].due <= now
    ensures items[i] == start[i] && (i + 1 < |start| ==> items[i + 1] == start[i + 1])
    ensures if !start[i].requested && |eligible| < max
            then Scanned(start, now, max, i + 1, eligible + [start[i].entry], items[i := start[i].(requested := true)])
            else Scanned(start, now, max, i + 1, eligible, items)
  {
    hide Chosen, Marked;
    ScanUnfold(start, i, now, max - |eligible|);
    var pick := !start[i].requested && |eligible| < max;
    var next := if pick then items[i := start[i].(requested := true)] else items;
    assert items[i..][0] == start[i..][0];
    if i + 1 < |start| { assert items[i..][1] == start[i..][1]; }
    assert start[i..][1..] == start[i + 1..];
    assert next[i + 1..] == items[i..][1..];
    assert next[..i + 1] == items[..i] + [next[i]];
  }

  lemma ScanEnd(start: seq<Slot>, now: nat, max: nat, i: nat, eligible: seq<HistoryEntry>, items: seq<Slot>)
    requires Scanned(start, now, max, i, eligible, items) && Sorted(start, DueLeq)
    requires i == |start| || |eligible| == max || start[i].due > now
    ensures eligible == Chosen(start, now, max) && items == Marked(start, now, max)
  {
    forall s | s in start[i..] && |eligible| < max ensures s.due > now {
      var k :| i <= k < |start| && start[k] == s;
      assert k == i || DueLeq(start[i], start[k]);
    }
    NothingDue(start[i..], now, max - |eligible|);
    assert items == items[..i] + items[i..];
  }

  lemma {:induction false} NothingDue(items: seq<Slot>, now: nat, max: nat)
    requires max == 0 || forall s :: s in items ==> s.due > now
    ensures Marked(items, now, max) == items
    ensures Chosen(items, now, max) == []
  {
    if |items| > 0 {
      NothingDue(items[1..], now, max);
    }
  }

  // Responses that have fallen due.

  function ReadySlots(items: seq<Slot>, now: nat): seq<Slot> {
    if |items| == 0 then []
    else (if items[0].due <= now then [items[0]] else []) + ReadySlots(items[1..], now)
  }

  function NotReadySlots(items: seq<Slot>, now: nat): seq<Slot> {
    if |items| == 0 then []
    else (if items[0].due > now then [items[0]] else []) + NotReadySlots(items[1..], now)
  }

  /** Cutting a sorted buffer at the first slot not due separates the two filters. */
  lemma {:induction false} CutoffSplits(items: seq<Slot>, now: nat, cutoff: nat)
    requires cutoff <= |items|
    requires forall i :: 0 <= i < cutoff ==> items[i].due <= now
    requires forall i :: cutoff <= i < |items| ==> items[i].due > now
    ensures ReadySlots(items, now) == items[..cutoff]
    ensures NotReadySlots(items, now) == items[cutoff..]
  {
    if |items| > 0 {
      CutoffSplits(items[1..], now, if cutoff > 0 then cutoff - 1 else 0);
      if cutoff > 0 {
        assert items[..cutoff] == [items[0]] + items[1..][..cutoff - 1];
        assert items[cutoff..] == items[1..][cutoff - 1..];
      }
    }
  }

  lemma {:induction false} ReadyMembers(items: seq<Slot>, now: nat)
    ensures forall s :: s in ReadySlots(items, now) <==> s in items && s.due <= now
    ensures forall s :: s in NotReadySlots(items, now) <==> s in items && s.due > now
  {
    if |items| > 0 {
      ReadyMembers(items[1..], now);
    }
  }

  class OutgoingRepairBuffer {
    const maxSize: nat
    var items: seq<Slot>

    ghost predicate Valid()
      reads this
    {
      maxSize >= 1 && BufferInv(items, maxSize)
    }

    constructor (maxSize: nat)
      requires maxSize >= 1
      ensures Valid() && items == [] && this.maxSize == maxSize
    {
      this.maxSize := maxSize;
      items := [];
    }

    method Add(entry: HistoryEntry, tReq: nat) returns (added: bool)
      requires Valid()
      modifies this
      ensures Valid() && items == Added(old(items), entry, tReq, maxSize)
      ensures added <==> entry.messageId !in SlotIds(old(items))
    {
      AddedKeeps(items, entry, tReq, maxSize);
      var present := Has(entry.messageId);
      if present {
        return false;
      }
      if |items| >= maxSize {
        items := items[..|items| - 1];
      }
      items := StableSort(items + [Slot(entry, tReq, false)], DueLeq);
      return true;
    }

    method Remove(messageId: MessageId)
      requires Valid()
      modifies this
      ensures Valid() && items == Removed(old(items), messageId)
      ensures forall s :: s in items <==> s in old(items) && s.entry.messageId != messageId
    {
      RemovedKeeps(items, messageId, maxSize);
      RemovedExactly(items, messageId);
      items := Removed(items, messageId);
    }

    method GetEligible(currentTime: nat, maxRequests: nat) returns (eligible: seq<HistoryEntry>)
      requires Valid()
      modifies this
      ensures Valid()
      ensures eligible == Chosen(old(items), currentTime, maxRequests)
      ensures items == Marked(old(items), currentTime, maxRequests)
    {
      MarkedKeeps(items, currentTime, maxRequests, maxSize);
      eligible, items := ScanEligible(items, currentTime, maxRequests);
    }

    /** Two early exits: the first slot not yet due, and enough requests. */
    static method ScanEligible(start: seq<Slot>, currentTime: nat, maxRequests: nat)
      returns (eligible: seq<HistoryEntry>, items: seq<Slot>)
      requires Sorted(start, DueLeq)
      ensures eligible == Chosen(start, currentTime, maxRequests)
      ensures items == Marked(start, currentTime, maxRequests)
    {
      hide Scanned;
      eligible, items := [], start;
      var i := 0;
      ScanStart(start, currentTime, maxRequests);
      while i < |items|
        invariant 0 <= i <= |items| == |start| && |eligible| <= maxRequests
        invariant i < |start| ==> items[i] == start[i]
        invariant Scanned(start, currentTime, maxRequests, i, eligible, items)
      {
        var item := items[i];
        if item.due > currentTime {
          break;
        }
        ScanAdvance(start, currentTime, maxRequests, i, eligible, items);
        if !item.requested && |eligible| < maxRequests {
          eligible := eligible + [item.entry];
          items := items[i := item.(requested := true)];
        }
        i := i + 1;
        if |eligible| >= maxRequests {
          break;
        }
      }
      ScanEnd(start, currentTime, maxRequests, i, eligible, items);
    }

    method Has(messageId: MessageId) returns (found: bool)
      ensures found <==> messageId in SlotIds(items)
    {
      found := exists s :: s in items && s.entry.messageId == messageId;
    }
  }

  class IncomingRepairBuffer {
    const maxSize: nat
    var items: seq<Slot>

    ghost predicate Valid()
      reads this
    {
      maxSize >= 1 && BufferInv(items, maxSize)
    }

    constructor (maxSize: nat)
      requires maxSize >= 1
      ensures Valid() && items == [] && this.maxSize == maxSize
    {
      this.maxSize := maxSize;
      items := [];
    }

    method Add(entry: HistoryEntry, tResp: nat) returns (added: bool)
      requires Valid()
      modifies this
      ensures Valid() && items == Added(old(items), entry, tResp, maxSize)
      ensures added <==> entry.messageId !in SlotIds(old(items))
    {
      AddedKeeps(items, entry, tResp, maxSize);
      var present := Has(entry.messageId);
      if present {
        return false;
      }
      if |items| >= maxSize {
        items := items[..|items| - 1];
      }
      items := StableSort(items + [Slot(entry, tResp, false)], DueLeq);
      return true;
    }

    method Remove(messageId: MessageId)
      requires Valid()
      modifies this
      ensures Valid() && items == Removed(old(items), messageId)
      ensures forall s :: s in items <==> s in old(items) && s.entry.messageId != messageId
    {
      RemovedKeeps(items, messageId, maxSize);
      RemovedExactly(items, messageId);
      items := Removed(items, messageId);
    }

    /** Everything before the first slot not yet due is returned and dropped. */
    method GetReady(currentTime: nat) returns (ready: seq<HistoryEntry>)
      requires Valid()
      modifies this
      ensures Valid()
      ensures ready == Entries(ReadySlots(old(items), currentTime))
      ensures items == NotReadySlots(old(items), currentTime)
    {
      var cutoff, i := 0, 0;
      while i < |items|
        invariant 0 <= i <= |items| && cutoff == i
        invariant forall j :: 0 <= j < i ==> items[j].due <= currentTime
      {
        if items[i].due > currentTime {
          cutoff := i;
          break;
        }
        cutoff := i + 1;
        i := i + 1;
      }
      forall j | cutoff <= j < |items| ensures items[j].due > currentTime {
        assert j == cutoff || DueLeq(items[cutoff], items[j]);
      }
      CutoffSplits(items, currentTime, cutoff);
      ready := Entries(items[..cutoff]);
      items := items[cutoff..];
    }

    method Has(messageId: MessageId) returns (found: bool)
      ensures found <==> messageId in SlotIds(items)
    {
      found := exists s :: s in items && s.entry.messageId == messageId;
    }
  }
}
