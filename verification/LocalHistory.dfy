/** The in-memory log of content messages: sorted by key, one entry per id, the
    oldest dropped beyond a maximum length. */
module LocalHistory {
  import opened Basics
  import opened Messages
  import opened OrderKey
  import opened Sorting

  predicate KeyLt(a: Message, b: Message) {
    StrLt(Key(a), Key(b))
  }

  predicate KeyLeq(a: Message, b: Message) {
    StrLeq(Key(a), Key(b))
  }

  lemma KeyOrderIsTotal()
    ensures TotalPreorder(KeyLeq)
  {
    forall x: Message, y: Message ensures KeyLeq(x, y) || KeyLeq(y, x) {
      StrLtTotal(Key(x), Key(y));
    }
    forall x: Message, y: Message, z: Message | KeyLeq(x, y) && KeyLeq(y, z) ensures KeyLeq(x, z) {
      if StrLt(Key(x), Key(y)) && StrLt(Key(y), Key(z)) {
        StrLtTransitive(Key(x), Key(y), Key(z));
      }
    }
  }

  /** `_.uniqBy(items, "messageId")`: the first entry of each id is kept. */
  function UniqById(s: seq<Message>): (r: seq<Message>) {
    if |s| == 0 then []
    else
      var p := UniqById(s[..|s| - 1]);
      if s[|s| - 1].messageId in Ids(p) then p else p + [s[|s| - 1]]
  }

  /** What `push` leaves in the log. */
  function Pushed(items: seq<Message>, batch: seq<Message>, maxLength: nat): seq<Message> {
    LastN(UniqById(StableSort(items + batch, KeyLeq)), maxLength)
  }

  class MemLocalHistory {
    const maxLength: nat
    var items: seq<Message>

    constructor (maxLength: nat)
      ensures items == [] && this.maxLength == maxLength
    {
      this.maxLength := maxLength;
      items := [];
    }

    /** Nothing is stored when one of the messages is not a content message. */
    method Push(batch: seq<Message>) returns (r: Result<nat>)
      modifies this
      ensures (forall m :: m in batch ==> IsContent(m)) ==>
                items == Pushed(old(items), batch, maxLength) && r == Success(|items|)
      ensures !(forall m :: m in batch ==> IsContent(m)) ==> items == old(items) && r.Failure?
    {
      var valid := ValidateMessages(batch);
      if !valid {
        return Failure("Message must have lamportTimestamp and content defined, " +
                       "sync and ephemeral messages cannot be stored");
      }
      var combined := StableSort(items + batch, KeyLeq);
      items := UniqById(combined);
      if |items| > maxLength {
        var numItemsToRemove := |items| - maxLength;
        items := items[numItemsToRemove..];
      }
      r := Success(|items|);
    }

    static method ValidateMessages(batch: seq<Message>) returns (valid: bool)
      ensures valid <==> forall m :: m in batch ==> IsContent(m)
    {
      valid := true;
      for i := 0 to |batch|
        invariant valid <==> forall m :: m in batch[..i] ==> IsContent(m)
      {
        assert batch[..i + 1] == batch[..i] + [batch[i]];
        valid := valid && IsContent(batch[i]);
      }
      assert batch[..|batch|] == batch;
    }

    method Has(id: MessageId) returns (found: bool)
      ensures found <==> id in Ids(items)
    {
      var r := Find(items, id);
      found := r.Some?;
    }
  }

  // What deduplication keeps.

  ghost predicate StrictlySorted(s: seq<Message>) {
    forall i, j :: 0 <= i < j < |s| ==> KeyLt(s[i], s[j])
  }

  /** Ids are distinct, nothing is invented and no id is lost. */
  lemma {:induction false} UniqByIdShape(s: seq<Message>)
    ensures DistinctIds(UniqById(s))
    ensures Elems(UniqById(s)) <= Elems(s) && Ids(UniqById(s)) == Ids(s)
    ensures |UniqById(s)| <= |s|
  {
    if |s| > 0 {
      var p, l := s[..|s| - 1], s[|s| - 1];
      assert s == p + [l];
      UniqByIdShape(p);
      IdsSnoc(p, l);
      IdsSnoc(UniqById(p), l);
    }
  }

  lemma IdsSnoc(s: seq<Message>, m: Message)
    ensures Ids(s + [m]) == Ids(s) + {m.messageId}
    ensures DistinctIds(s + [m]) <==> DistinctIds(s) && m.messageId !in Ids(s)
    ensures Elems(s + [m]) == Elems(s) + {m}
  {
    IdsAppend(s, [m]);
    assert Ids([m]) == {m.messageId} by { assert m in [m]; }
    if DistinctIds(s + [m]) {
      forall i, j | 0 <= i < j < |s| ensures s[i].messageId != s[j].messageId {
        assert (s + [m])[i].messageId != (s + [m])[j].messageId;
      }
      forall x | x in s ensures x.messageId != m.messageId {
        var i :| 0 <= i < |s| && s[i] == x;
        assert (s + [m])[i].messageId != (s + [m])[|s|].messageId;
      }
    }
    if DistinctIds(s) && m.messageId !in Ids(s) {
      forall i, j | 0 <= i < j < |s + [m]| ensures (s + [m])[i].messageId != (s + [m])[j].messageId {
        assert s[i] in s;
      }
    }
  }

  lemma {:induction false} UniqByIdSorted(s: seq<Message>)
    requires Sorted(s, KeyLeq)
    ensures Sorted(UniqById(s), KeyLeq)
  {
    if |s| > 0 {
      var p, l := s[..|s| - 1], s[|s| - 1];
      UniqByIdSorted(p);
      UniqByIdShape(p);
      var u := UniqById(p);
      forall i | 0 <= i < |u| ensures KeyLeq(u[i], l) {
        assert u[i] in Elems(p);
      }
    }
  }

  /** Of several entries under one id, the one that sorts first survives. */
  lemma {:induction false} UniqByIdKeepsEarliest(s: seq<Message>, kept: Message, other: Message)
    requires Sorted(s, KeyLeq)
    requires kept in UniqById(s) && other in s && kept.messageId == other.messageId
    ensures KeyLeq(kept, other)
  {
    var p, l := s[..|s| - 1], s[|s| - 1];
    assert s == p + [l];
    UniqByIdShape(p);
    if kept in UniqById(p) {
      assert kept in Elems(p);
      if other in p {
        UniqByIdKeepsEarliest(p, kept, other);
      }
    } else {
      assert kept == l && l.messageId !in Ids(p);
      assert other == l;
    }
  }

  /** Once ids determine messages, sorting and deduplicating a batch lists its
      set of messages in strictly increasing key order. */
  lemma SortedUniqueList(c: seq<Message>)
    requires IdDetermines(Elems(c))
    ensures var u := UniqById(StableSort(c, KeyLeq)); StrictlySorted(u) && Elems(u) == Elems(c)
  {
    KeyOrderIsTotal();
    var s := StableSort(c, KeyLeq);
    StableSortContents(c, KeyLeq);
    StableSortSorted(c, KeyLeq);
    UniqByIdShape(s);
    UniqByIdSorted(s);
    var u := UniqById(s);
    forall x | x in c ensures x in u {
      assert x in Elems(s);
      assert x.messageId in Ids(u);
      var y :| y in u && y.messageId == x.messageId;
      assert y in Elems(s);
    }
    forall i, j | 0 <= i < j < |u| ensures KeyLt(u[i], u[j]) {
      assert KeyLeq(u[i], u[j]);
      if Key(u[i]) == Key(u[j]) {
        KeyDeterminesId(u[i], u[j]);
      }
    }
  }

  /** Whatever was pushed, the log is strictly sorted by key. */
  lemma PushSorts(log: seq<Message>, batch: seq<Message>, n: nat)
    ensures StrictlySorted(Pushed(log, batch, n))
  {
    KeyOrderIsTotal();
    var s := StableSort(log + batch, KeyLeq);
    StableSortSorted(log + batch, KeyLeq);
    UniqByIdShape(s);
    UniqByIdSorted(s);
    var u := UniqById(s);
    hide StableSort, UniqById;
    forall i, j | 0 <= i < j < |u| ensures KeyLt(u[i], u[j]) {
      assert KeyLeq(u[i], u[j]);
      if Key(u[i]) == Key(u[j]) {
        KeyDeterminesId(u[i], u[j]);
      }
    }
  }

  // Convergence.

  /** `t` lists, in key order, the `n` greatest messages of `all` (all of them
      when there are no more than `n`). */
  ghost predicate IsTop(t: seq<Message>, all: set<Message>, n: nat) {
    && StrictlySorted(t)
    && Elems(t) <= all
    && |t| == Min(n, |all|)
    && forall a, b :: a in all && a !in t && b in t ==> KeyLt(a, b)
  }

  lemma StrictlySortedDistinct(s: seq<Message>)
    requires StrictlySorted(s)
    ensures NoDuplicates(s) && |Elems(s)| == |s|
  {
    forall i, j | 0 <= i < j < |s| ensures s[i] != s[j] {
      StrLtIrreflexive(Key(s[i]));
    }
    ElemsSize(s);
  }

  lemma KeyLtAsymmetric(a: Message, b: Message)
    requires KeyLt(a, b)
    ensures !KeyLt(b, a)
  {
    if KeyLt(b, a) {
      StrLtTransitive(Key(a), Key(b), Key(a));
      StrLtIrreflexive(Key(a));
    }
  }

  lemma {:induction false} StrictlySortedUnique(s: seq<Message>, t: seq<Message>)
    requires StrictlySorted(s) && StrictlySorted(t) && Elems(s) == Elems(t)
    ensures s == t
  {
    StrictlySortedDistinct(s);
    StrictlySortedDistinct(t);
    if |s| > 0 {
      var p, l, q, k := s[..|s| - 1], s[|s| - 1], t[..|t| - 1], t[|t| - 1];
      assert s == p + [l] && t == q + [k];
      assert l in Elems(t) && k in Elems(s);
      if l != k {
        assert KeyLt(l, k);
        assert KeyLt(k, l);
        KeyLtAsymmetric(l, k);
        assert false;
      }
      forall x ensures x in Elems(p) <==> x in Elems(q) {
        if x in Elems(p) { assert x in Elems(t) && x != l; }
        if x in Elems(q) { assert x in Elems(s) && x != k; }
      }
      StrictlySortedUnique(p, q);
    }
  }

  lemma TopUnique(s: seq<Message>, t: seq<Message>, all: set<Message>, n: nat)
    requires IsTop(s, all, n) && IsTop(t, all, n)
    ensures s == t
  {
    StrictlySortedDistinct(s);
    StrictlySortedDistinct(t);
    if !(Elems(s) <= Elems(t)) {
      var a :| a in s && a !in t;
      if Elems(t) <= Elems(s) { SubsetSize(Elems(t), Elems(s)); }
      var b :| b in t && b !in s;
      assert KeyLt(a, b) && KeyLt(b, a);
      KeyLtAsymmetric(a, b);
      assert false;
    }
    SubsetSize(Elems(s), Elems(t));
    StrictlySortedUnique(s, t);
  }

  lemma TopOfEmpty(n: nat)
    ensures IsTop([], {}, n)
  {
  }

  /** What truncation drops of a sorted list precedes everything it keeps. */
  lemma TruncatedIsTop(u: seq<Message>, n: nat)
    requires StrictlySorted(u)
    ensures IsTop(LastN(u, n), Elems(u), n)
  {
    StrictlySortedDistinct(u);
    hide KeyLt;
    var t := LastN(u, n);
    forall a, b | a in Elems(u) && a !in t && b in t ensures KeyLt(a, b) {
      var i :| 0 <= i < |u| && u[i] == a;
      var j :| 0 <= j < |t| && t[j] == b;
      assert u[|u| - |t| + j] == b;
      assert i < |u| - |t|;
    }
  }

  /** One push turns the top of what was pushed before into the top of all that
      has been pushed. */
  lemma PushKeepsTop(log: seq<Message>, all: set<Message>, batch: seq<Message>, n: nat)
    requires IsTop(log, all, n) && IdDetermines(all + Elems(batch))
    ensures IsTop(Pushed(log, batch, n), all + Elems(batch), n)
  {
    ElemsAppend(log, batch);
    SortedUniqueList(log + batch);
    var u := UniqById(StableSort(log + batch, KeyLeq));
    TopOfUnion(log, all, Elems(batch), u, n);
  }

  lemma TopOfUnion(log: seq<Message>, all: set<Message>, more: set<Message>, u: seq<Message>, n: nat)
    requires IsTop(log, all, n) && StrictlySorted(u) && Elems(u) == Elems(log) + more
    ensures IsTop(LastN(u, n), all + more, n)
  {
    TruncatedIsTop(u, n);
    StrictlySortedDistinct(log);
    StrictlySortedDistinct(u);
    if |all| <= n {
      SubsetSize(Elems(log), all);
    } else {
      SubsetSize(Elems(log), Elems(u));
      SubsetSize(all, all + more);
      var t := LastN(u, n);
      assert Elems(t) <= Elems(u);
      forall a, b | a in all + more && a !in t && b in t ensures KeyLt(a, b) {
        if a in u {
          assert a in Elems(u);
        } else {
          assert a !in Elems(log);
          DroppedStaysBelow(log, u, t, n, a, b);
        }
      }
    }
  }

  /** The case of a message truncated by an earlier push: it precedes the whole
      log, and the log alone fills the new one. */
  lemma DroppedStaysBelow(log: seq<Message>, u: seq<Message>, t: seq<Message>, n: nat, a: Message, b: Message)
    requires StrictlySorted(log) && StrictlySorted(u) && Elems(log) <= Elems(u)
    requires |log| == n <= |u| && t == LastN(u, n) && b in t
    requires forall x :: x in log ==> KeyLt(a, x)
    ensures KeyLt(a, b)
  {
    if b !in log && !KeyLt(a, b) {
      StrictlySortedDistinct(log);
      StrictlySortedDistinct(t);
      forall x | x in log ensures x in t {
        StrLtTotal(Key(a), Key(b));
        if Key(a) != Key(b) { StrLtTransitive(Key(b), Key(a), Key(x)); }
        assert KeyLt(b, x);
        assert x in Elems(u);
        if x !in t {
          TruncatedIsTop(u, n);
          KeyLtAsymmetric(b, x);
          assert false;
        }
      }
      assert Elems(log) <= Elems(t) && b in Elems(t) - Elems(log);
      SubsetSize(Elems(log), Elems(t));
      assert false;
    }
  }

  /** The log after pushing batches one after the other into an empty history. */
  function PushAll(batches: seq<seq<Message>>, n: nat): seq<Message> {
    if |batches| == 0 then []
    else Pushed(PushAll(batches[..|batches| - 1], n), batches[|batches| - 1], n)
  }

  lemma {:induction false} LogIsTopOfPushed(batches: seq<seq<Message>>, n: nat)
    requires IdDetermines(Elems(Flatten(batches)))
    ensures IsTop(PushAll(batches, n), Elems(Flatten(batches)), n)
  {
    if |batches| > 0 {
      var p, l := batches[..|batches| - 1], batches[|batches| - 1];
      ElemsAppend(Flatten(p), l);
      LogIsTopOfPushed(p, n);
      PushKeepsTop(PushAll(p, n), Elems(Flatten(p)), l, n);
    } else {
      TopOfEmpty(n);
    }
  }

  /** Two histories that were pushed the same set of messages, in any order,
      batching and repetition, hold the same log, truncated or not. */
  lemma LogConvergence(one: seq<seq<Message>>, other: seq<seq<Message>>, n: nat)
    requires IdDetermines(Elems(Flatten(one))) && Elems(Flatten(one)) == Elems(Flatten(other))
    ensures PushAll(one, n) == PushAll(other, n)
  {
    LogIsTopOfPushed(one, n);
    LogIsTopOfPushed(other, n);
    TopUnique(PushAll(one, n), PushAll(other, n), Elems(Flatten(one)), n);
  }

  /** With timestamps the key can hold, the log is in (timestamp, id) order. */
  lemma LogIsChronological(batches: seq<seq<Message>>, n: nat, i: nat, j: nat)
    requires IdDetermines(Elems(Flatten(batches)))
    requires forall m :: m in Flatten(batches) ==> IsContent(m) && m.lamportTimestamp.value < 10_000_000_000_000_000
    requires i < j < |PushAll(batches, n)|
    ensures IsContent(PushAll(batches, n)[i]) && IsContent(PushAll(batches, n)[j])
    ensures ChronologicallyBefore(PushAll(batches, n)[i], PushAll(batches, n)[j])
  {
    LogIsTopOfPushed(batches, n);
    var log := PushAll(batches, n);
    assert log[i] in Elems(log) && log[j] in Elems(log);
    KeyFaithful(log[i], log[j]);
  }

  // One message at a time, as the message channel pushes.

  /** Pushing one message whose id is new, with room for it, adds exactly it. */
  lemma PushOneFits(log: seq<Message>, m: Message, n: nat)
    requires DistinctIds(log) && |log| < n && m.messageId !in Ids(log)
    ensures Elems(Pushed(log, [m], n)) == Elems(log) + {m}
    ensures |Pushed(log, [m], n)| == |log| + 1
    ensures Ids(Pushed(log, [m], n)) == Ids(log) + {m.messageId}
  {
    var c := log + [m];
    IdsSnoc(log, m);
    IdDeterminedBy(c);
    SortedUniqueList(c);
    var u := UniqById(StableSort(c, KeyLeq));
    StrictlySortedDistinct(u);
    ElemsSize(c);
    IdsOfElems(u, c);
  }

  /** What delivery does to the log, when the ids, counted once each, fit. */
  lemma PushUnlessPresent(log: seq<Message>, m: Message, n: nat)
    requires DistinctIds(log) && |Ids(log) + {m.messageId}| <= n
    ensures var after := if m.messageId in Ids(log) then log else Pushed(log, [m], n);
            && DistinctIds(after)
            && Ids(after) == Ids(log) + {m.messageId}
            && Elems(log) <= Elems(after) <= Elems(log) + {m}
  {
    hide Pushed, DistinctIds, Ids;
    IdCount(log);
    if m.messageId !in Ids(log) {
      PushOneFits(log, m, n);
      PushShape(log, [m], n);
    }
  }

  lemma IdDeterminedBy(c: seq<Message>)
    requires DistinctIds(c)
    ensures IdDetermines(Elems(c))
    ensures NoDuplicates(c)
  {
    forall a, b | a in Elems(c) && b in Elems(c) && a.messageId == b.messageId ensures a == b {
      var i :| 0 <= i < |c| && c[i] == a;
      var j :| 0 <= j < |c| && c[j] == b;
      assert i == j;
    }
  }

  /** No id is lost exactly when the ids, counted once each, fit. */
  lemma PushOneIds(log: seq<Message>, m: Message, n: nat)
    ensures Ids(Pushed(log, [m], n)) == Ids(log) + {m.messageId} <==> |Ids(log) + {m.messageId}| <= n
  {
    var c := log + [m];
    var s := StableSort(c, KeyLeq);
    StableSortContents(c, KeyLeq);
    UniqByIdShape(s);
    IdsOfElems(s, c);
    IdsSnoc(log, m);
    IdCount(UniqById(s));
    PushShape(log, [m], n);
    IdCount(Pushed(log, [m], n));
    hide StableSort, UniqById, Ids, DistinctIds;
  }

  /** Distinct ids are as many as the messages. */
  lemma {:induction false} IdCount(s: seq<Message>)
    requires DistinctIds(s)
    ensures |Ids(s)| == |s|
  {
    if |s| > 0 {
      var p, l := s[..|s| - 1], s[|s| - 1];
      assert s == p + [l];
      IdsSnoc(p, l);
      IdCount(p);
    }
  }

  /** In general a push leaves distinct ids, drawn from the log and the batch. */
  lemma PushShape(log: seq<Message>, batch: seq<Message>, n: nat)
    ensures DistinctIds(Pushed(log, batch, n))
    ensures Elems(Pushed(log, batch, n)) <= Elems(log) + Elems(batch)
    ensures |Pushed(log, batch, n)| <= n
  {
    var s := StableSort(log + batch, KeyLeq);
    StableSortContents(log + batch, KeyLeq);
    ElemsAppend(log, batch);
    UniqByIdShape(s);
  }
}
