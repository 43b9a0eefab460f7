/** A historical query: the time range is split into sub-ranges of at most a day, and
    each sub-range is read page by page, the cursor following the pages. The server is
    any function that honours the documented contract of the query parameters. */
module StoreQuery {
  import opened Basics

  const DEFAULT_PAGE_SIZE: nat := 20
  const MAX_PAGE_SIZE: nat := 100
  const MAX_TIME_RANGE: nat := 86_400_000

  type MessageHash = Bytes

  datatype Stored = Stored(messageHash: MessageHash, time: int)

  datatype Query = Query(timeStart: Option<int>, timeEnd: Option<int>, paginationCursor: Option<MessageHash>,
                         paginationForward: bool, paginationLimit: Option<nat>)

  type Page = seq<Stored>

  type Server = (Query, Option<MessageHash>) -> Page

  // The contract.

  /** From `timeStart` on, strictly before `timeEnd`. */
  predicate InRange(q: Query, m: Stored) {
    (q.timeStart.Some? ==> q.timeStart.value <= m.time) && (q.timeEnd.Some? ==> m.time < q.timeEnd.value)
  }

  function Matches(store: seq<Stored>, q: Query): seq<Stored> {
    if |store| == 0 then []
    else (if InRange(q, store[0]) then [store[0]] else []) + Matches(store[1..], q)
  }

  /** Oldest first. */
  ghost predicate TimeOrdered(store: seq<Stored>) {
    forall i, j :: 0 <= i < j < |store| ==> store[i].time <= store[j].time
  }

  ghost predicate UniqueHashes(store: seq<Stored>) {
    forall i, j :: 0 <= i < j < |store| ==> store[i].messageHash != store[j].messageHash
  }

  predicate Holds(store: seq<Stored>, h: MessageHash) {
    exists i :: 0 <= i < |store| && store[i].messageHash == h
  }

  function Position(store: seq<Stored>, h: MessageHash): (r: nat)
    requires Holds(store, h)
    ensures r < |store| && store[r].messageHash == h
  {
    if store[0].messageHash == h then 0 else Position(store[1..], h) + 1
  }

  /** The stored messages on the far side of the cursor. */
  function Beyond(store: seq<Stored>, forward: bool, cursor: Option<MessageHash>): seq<Stored>
    requires cursor.Some? ==> Holds(store, cursor.value)
  {
    if cursor.None? then store
    else if forward then store[Position(store, cursor.value) + 1..]
    else store[..Position(store, cursor.value)]
  }

  /** What the query still has to return from the cursor on, oldest first. */
  function Remaining(store: seq<Stored>, q: Query, cursor: Option<MessageHash>): seq<Stored>
    requires cursor.Some? ==> Holds(store, cursor.value)
  {
    Matches(Beyond(store, q.paginationForward, cursor), q)
  }

  /** A page is cut from the near end of what remains, and is empty only when nothing
      does. */
  ghost predicate PageOk(remaining: seq<Stored>, forward: bool, page: Page) {
    && |page| <= MAX_PAGE_SIZE
    && |page| <= |remaining|
    && page == (if forward then remaining[..|page|] else remaining[|remaining| - |page|..])
    && (|page| == 0 ==> |remaining| == 0)
  }

  ghost predicate Honours(server: Server, store: seq<Stored>) {
    forall q: Query, c: Option<MessageHash> | c.Some? ==> Holds(store, c.value) ::
      PageOk(Remaining(store, q, c), q.paginationForward, server(q, c))
  }

  // Following the cursor.

  lemma {:induction false} MatchesConcat(a: seq<Stored>, b: seq<Stored>, q: Query)
    ensures Matches(a + b, q) == Matches(a, q) + Matches(b, q)
  {
    if |a| == 0 {
      assert a + b == b;
    } else {
      assert (a + b)[1..] == a[1..] + b;
      MatchesConcat(a[1..], b, q);
    }
  }

  /** Where the `k`-th match is stored. */
  lemma {:induction false} MatchPlace(store: seq<Stored>, q: Query, k: nat) returns (i: nat)
    requires k < |Matches(store, q)|
    ensures i < |store| && store[i] == Matches(store, q)[k]
    ensures Matches(store[..i], q) == Matches(store, q)[..k]
    ensures Matches(store[i + 1..], q) == Matches(store, q)[k + 1..]
  {
    var here := InRange(q, store[0]);
    if here && k == 0 {
      i := 0;
    } else {
      var j := MatchPlace(store[1..], q, if here then k - 1 else k);
      i := j + 1;
      hide InRange;
      assert store[..i][0] == store[0] && store[..i][1..] == store[1..][..j];
      assert store[i + 1..] == store[1..][j + 1..];
    }
  }

  lemma PositionIs(store: seq<Stored>, i: nat)
    requires UniqueHashes(store) && i < |store|
    ensures Holds(store, store[i].messageHash) && Position(store, store[i].messageHash) == i
  {
  }

  lemma {:induction false} MatchesShorter(store: seq<Stored>, q: Query)
    ensures |Matches(store, q)| <= |store|
  {
    if |store| > 0 { MatchesShorter(store[1..], q); }
  }

  /** After a page, the next cursor leaves exactly what the page did not return. */
  lemma CursorAdvances(store: seq<Stored>, q: Query, cursor: Option<MessageHash>, page: Page)
    requires UniqueHashes(store) && (cursor.Some? ==> Holds(store, cursor.value))
    requires PageOk(Remaining(store, q, cursor), q.paginationForward, page) && |page| > 0
    ensures var rest := Remaining(store, q, cursor);
            var next := (if q.paginationForward then page[|page| - 1] else page[0]).messageHash;
            && Holds(store, next)
            && Remaining(store, q, Some(next)) ==
               if q.paginationForward then rest[|page|..] else rest[..|rest| - |page|]
  {
    hide UniqueHashes, Matches, Holds;
    if q.paginationForward {
      AdvancesForward(store, q, cursor, |page| - 1);
    } else {
      AdvancesBackward(store, q, cursor, |Remaining(store, q, cursor)| - |page|);
    }
  }

  lemma AdvancesForward(store: seq<Stored>, q: Query, cursor: Option<MessageHash>, k: nat)
    requires UniqueHashes(store) && (cursor.Some? ==> Holds(store, cursor.value)) && q.paginationForward
    requires k < |Remaining(store, q, cursor)|
    ensures var rest := Remaining(store, q, cursor);
            && Holds(store, rest[k].messageHash)
            && Remaining(store, q, Some(rest[k].messageHash)) == rest[k + 1..]
  {
    var offset := if cursor.None? then 0 else Position(store, cursor.value) + 1;
    var part := store[offset..];
    hide UniqueHashes, Matches, Holds, Position;
    assert Beyond(store, true, cursor) == part;
    var i := MatchPlace(part, q, k);
    PositionIs(store, offset + i);
    assert store[offset + i + 1..] == part[i + 1..];
  }

  lemma AdvancesBackward(store: seq<Stored>, q: Query, cursor: Option<MessageHash>, k: nat)
    requires UniqueHashes(store) && (cursor.Some? ==> Holds(store, cursor.value)) && !q.paginationForward
    requires k < |Remaining(store, q, cursor)|
    ensures var rest := Remaining(store, q, cursor);
            && Holds(store, rest[k].messageHash)
            && Remaining(store, q, Some(rest[k].messageHash)) == rest[..k]
  {
    var end := if cursor.None? then |store| else Position(store, cursor.value);
    var part := store[..end];
    hide UniqueHashes, Matches, Holds, Position;
    assert Beyond(store, false, cursor) == part;
    var i := MatchPlace(part, q, k);
    PositionIs(store, i);
    assert store[..i] == part[..i];
  }

  function Reverse<T>(s: seq<T>): (r: seq<T>)
    ensures |r| == |s|
  {
    if |s| == 0 then [] else [s[|s| - 1]] + Reverse(s[..|s| - 1])
  }

  /** The pages in the order of time. */
  function Chronological(forward: bool, pages: seq<Page>): seq<Stored> {
    Flatten(if forward then pages else Reverse(pages))
  }

  lemma ChronologicalSnoc(forward: bool, pages: seq<Page>, page: Page)
    ensures Chronological(forward, pages + [page]) ==
            if forward then Chronological(forward, pages) + page else page + Chronological(forward, pages)
  {
    if forward {
      FlattenSnoc(pages, page);
    } else {
      assert (pages + [page])[..|pages|] == pages;
      FlattenAppend([page], Reverse(pages));
      assert Flatten([page]) == page by {
        assert [page][..0] == [];
      }
    }
  }

  ghost predicate PagesOk(pages: seq<Page>) {
    forall p :: p in pages ==> 0 < |p| <= MAX_PAGE_SIZE
  }

  predicate TooLong(q: Query) {
    q.timeStart.Some? && q.timeEnd.Some? && q.timeEnd.value - q.timeStart.value > MAX_TIME_RANGE
  }

  function PageLimit(q: Query): nat {
    if q.paginationLimit.Some? && q.paginationLimit.value > 0 then q.paginationLimit.value else DEFAULT_PAGE_SIZE
  }

  /** The pages, in the order they are yielded. Whatever sizes the server chooses, they
      hold every match beyond the given cursor once, in order: forward as they come,
      backward page by page from the newest. */
  method QueryPerPage(q: Query, server: Server, ghost store: seq<Stored>) returns (r: Result<seq<Page>>)
    requires UniqueHashes(store) && Honours(server, store)
    requires q.paginationCursor.Some? ==> Holds(store, q.paginationCursor.value)
    ensures r.Failure? <==> TooLong(q)
    ensures r.Success? ==> PagesOk(r.value)
    ensures r.Success? ==> Chronological(q.paginationForward, r.value) == Remaining(store, q, q.paginationCursor)
  {
    hide Remaining, Chronological, Holds, UniqueHashes, Honours, PagesOk, Pending;
    if q.timeStart.Some? && q.timeEnd.Some? {
      var timeDiff := q.timeEnd.value - q.timeStart.value;
      if timeDiff > MAX_TIME_RANGE {
        return Failure("Time range bigger than 24h");
      }
    }
    var currentCursor := q.paginationCursor;
    var pages := [];
    NoPages(store, q);
    while true
      invariant currentCursor.Some? ==> Holds(store, currentCursor.value)
      invariant PagesOk(pages) && Pending(store, q, currentCursor, pages)
      decreases |Remaining(store, q, currentCursor)|
    {
      var messages := server(q, currentCursor);
      PageStep(store, q, server, currentCursor, pages);
      if |messages| == 0 {
        break;
      }
      pages := pages + [messages];
      currentCursor :=
        Some((if q.paginationForward then messages[|messages| - 1] else messages[0]).messageHash);
      if |messages| > MAX_PAGE_SIZE && |messages| < PageLimit(q) {
        break;
      }
    }
    r := Success(pages);
  }

  /** The pages so far and what is beyond the cursor make up the whole. */
  ghost predicate Pending(store: seq<Stored>, q: Query, cursor: Option<MessageHash>, pages: seq<Page>)
    requires q.paginationCursor.Some? ==> Holds(store, q.paginationCursor.value)
    requires cursor.Some? ==> Holds(store, cursor.value)
  {
    var past := Chronological(q.paginationForward, pages);
    Remaining(store, q, q.paginationCursor) ==
    if q.paginationForward then past + Remaining(store, q, cursor) else Remaining(store, q, cursor) + past
  }

  lemma PageStep(store: seq<Stored>, q: Query, server: Server, cursor: Option<MessageHash>, pages: seq<Page>)
    requires UniqueHashes(store) && Honours(server, store)
    requires q.paginationCursor.Some? ==> Holds(store, q.paginationCursor.value)
    requires cursor.Some? ==> Holds(store, cursor.value)
    requires PagesOk(pages) && Pending(store, q, cursor, pages)
    ensures var page := server(q, cursor);
            if |page| == 0 then Chronological(q.paginationForward, pages) == Remaining(store, q, q.paginationCursor)
            else
              var next := Some((if q.paginationForward then page[|page| - 1] else page[0]).messageHash);
              && |page| <= MAX_PAGE_SIZE && PagesOk(pages + [page])
              && Holds(store, next.value) && Pending(store, q, next, pages + [page])
              && |Remaining(store, q, next)| < |Remaining(store, q, cursor)|
  {
    hide *;
    var page := server(q, cursor);
    PageHonours(server, store, q, cursor);
    if |page| == 0 {
      LastPage(store, q, cursor, pages);
    } else {
      AddPage(pages, page);
      CursorAdvances(store, q, cursor, page);
      if q.paginationForward {
        StepForward(store, q, cursor, pages, page);
      } else {
        StepBackward(store, q, cursor, pages, page);
      }
    }
  }

  lemma AddPage(pages: seq<Page>, page: Page)
    requires PagesOk(pages) && 0 < |page| <= MAX_PAGE_SIZE
    ensures PagesOk(pages + [page])
  {
  }

  lemma LastPage(store: seq<Stored>, q: Query, cursor: Option<MessageHash>, pages: seq<Page>)
    requires q.paginationCursor.Some? ==> Holds(store, q.paginationCursor.value)
    requires cursor.Some? ==> Holds(store, cursor.value)
    requires Pending(store, q, cursor, pages) && |Remaining(store, q, cursor)| == 0
    ensures Chronological(q.paginationForward, pages) == Remaining(store, q, q.paginationCursor)
  {
    hide Remaining, Chronological, Holds;
  }

  lemma StepForward(store: seq<Stored>, q: Query, cursor: Option<MessageHash>, pages: seq<Page>, page: Page)
    requires q.paginationForward && (q.paginationCursor.Some? ==> Holds(store, q.paginationCursor.value))
    requires (cursor.Some? ==> Holds(store, cursor.value)) && |page| > 0 && Holds(store, page[|page| - 1].messageHash)
    requires Pending(store, q, cursor, pages)
    requires |page| <= |Remaining(store, q, cursor)| && page == Remaining(store, q, cursor)[..|page|]
    requires Remaining(store, q, Some(page[|page| - 1].messageHash)) == Remaining(store, q, cursor)[|page|..]
    ensures Pending(store, q, Some(page[|page| - 1].messageHash), pages + [page])
  {
    hide Remaining, Chronological, Holds;
    ChronologicalSnoc(true, pages, page);
    MoveFront(Chronological(true, pages), Remaining(store, q, cursor), |page|);
  }

  lemma StepBackward(store: seq<Stored>, q: Query, cursor: Option<MessageHash>, pages: seq<Page>, page: Page)
    requires !q.paginationForward && (q.paginationCursor.Some? ==> Holds(store, q.paginationCursor.value))
    requires (cursor.Some? ==> Holds(store, cursor.value)) && |page| > 0 && Holds(store, page[0].messageHash)
    requires Pending(store, q, cursor, pages)
    requires var k := |Remaining(store, q, cursor)| - |page|;
      && k >= 0 && page == Remaining(store, q, cursor)[k..]
      && Remaining(store, q, Some(page[0].messageHash)) == Remaining(store, q, cursor)[..k]
    ensures Pending(store, q, Some(page[0].messageHash), pages + [page])
  {
    hide Remaining, Chronological, Holds;
    ChronologicalSnoc(false, pages, page);
    MoveBack(Chronological(false, pages), Remaining(store, q, cursor), |Remaining(store, q, cursor)| - |page|);
  }

  lemma MoveFront(past: seq<Stored>, rest: seq<Stored>, k: nat)
    requires k <= |rest|
    ensures past + rest == (past + rest[..k]) + rest[k..]
  {
  }

  lemma MoveBack(past: seq<Stored>, rest: seq<Stored>, k: nat)
    requires k <= |rest|
    ensures rest + past == rest[..k] + (rest[k..] + past)
  {
  }

  lemma PageHonours(server: Server, store: seq<Stored>, q: Query, cursor: Option<MessageHash>)
    requires Honours(server, store) && (cursor.Some? ==> Holds(store, cursor.value))
    ensures PageOk(Remaining(store, q, cursor), q.paginationForward, server(q, cursor))
    ensures |server(q, cursor)| <= MAX_PAGE_SIZE
    ensures var page, rest := server(q, cursor), Remaining(store, q, cursor);
            && |page| <= |rest| && (|page| == 0 ==> |rest| == 0)
            && page == (if q.paginationForward then rest[..|page|] else rest[|rest| - |page|..])
  {
    hide Remaining;
  }

  lemma NoPages(store: seq<Stored>, q: Query)
    requires q.paginationCursor.Some? ==> Holds(store, q.paginationCursor.value)
    ensures PagesOk([]) && Pending(store, q, q.paginationCursor, [])
  {
    hide Remaining;
    assert Chronological(q.paginationForward, []) == [];
  }

  // Splitting the time range.

  /** Where the last whole sub-range ends: the whole range when it fits the limit, and
      otherwise short of the end. */
  function Covered(start: int, end: int): int {
    if end - start <= MAX_TIME_RANGE then end
    else start + (end - start - 1) / MAX_TIME_RANGE * MAX_TIME_RANGE
  }

  lemma CoveredBounds(start: int, end: int)
    ensures Covered(start, end) <= end
    ensures end - start <= MAX_TIME_RANGE ==> Covered(start, end) == end
    ensures end - start > MAX_TIME_RANGE ==>
              start < Covered(start, end) < end && end - Covered(start, end) <= MAX_TIME_RANGE
  {
  }

  ghost predicate Splits(q: Query, queries: seq<Query>)
    requires q.timeStart.Some? && q.timeEnd.Some?
  {
    && |queries| > 0
    && (forall i :: 0 <= i < |queries| ==>
          queries[i].timeStart.Some? && queries[i].timeEnd.Some? &&
          queries[i] == q.(timeStart := queries[i].timeStart, timeEnd := queries[i].timeEnd))
    && queries[0].timeStart == q.timeStart
    && (forall i :: 0 < i < |queries| ==> queries[i].timeStart == queries[i - 1].timeEnd)
    && queries[|queries| - 1].timeEnd == Some(Covered(q.timeStart.value, q.timeEnd.value))
    && (forall i :: 0 <= i < |queries| ==> !TooLong(queries[i]))
    && (!TooLong(q) ==> |queries| == 1)
    && (TooLong(q) ==> forall i :: 0 <= i < |queries| ==>
          queries[i].timeEnd.value - queries[i].timeStart.value == MAX_TIME_RANGE)
  }

  /** Sub-ranges of exactly the limit while more than the limit is left; what is left
      after that is queried only when it is the whole range. */
  method BuildQueryParams(q: Query) returns (queries: seq<Query>)
    ensures q.timeStart.None? || q.timeEnd.None? ==> queries == [q]
    ensures q.timeStart.Some? && q.timeEnd.Some? ==> Splits(q, queries)
  {
    var subTimeRanges: seq<(int, int)> := [];
    if q.timeStart.Some? && q.timeEnd.Some? {
      var start, end := q.timeStart.value, q.timeEnd.value;
      while end - start > MAX_TIME_RANGE
        invariant start == q.timeStart.value + |subTimeRanges| * MAX_TIME_RANGE
        invariant |subTimeRanges| > 0 ==> start < end
        invariant forall i :: 0 <= i < |subTimeRanges| ==>
                    subTimeRanges[i].0 == q.timeStart.value + i * MAX_TIME_RANGE &&
                    subTimeRanges[i].1 == q.timeStart.value + (i + 1) * MAX_TIME_RANGE
        decreases end - start
      {
        var subEnd := start + MAX_TIME_RANGE;
        subTimeRanges := subTimeRanges + [(start, subEnd)];
        start := subEnd;
      }
      if |subTimeRanges| == 0 {
        subTimeRanges := subTimeRanges + [(start, end)];
      }
    }
    if |subTimeRanges| == 0 {
      return [q];
    }
    queries := seq(|subTimeRanges|, i requires 0 <= i < |subTimeRanges| =>
      q.(timeStart := Some(subTimeRanges[i].0), timeEnd := Some(subTimeRanges[i].1)));
  }

  lemma {:induction false} AppendRanges(store: seq<Stored>, q: Query, a: int, b: int, c: int)
    requires TimeOrdered(store) && a <= b <= c
    ensures Matches(store, q.(timeStart := Some(a), timeEnd := Some(c))) ==
            Matches(store, q.(timeStart := Some(a), timeEnd := Some(b))) +
            Matches(store, q.(timeStart := Some(b), timeEnd := Some(c)))
  {
    if |store| > 0 {
      AppendRanges(store[1..], q, a, b, c);
      if store[0].time >= b {
        NoneEarlier(store, q.(timeStart := Some(a), timeEnd := Some(b)), b);
      }
    }
  }

  lemma {:induction false} NoneEarlier(store: seq<Stored>, q: Query, b: int)
    requires TimeOrdered(store) && q.timeEnd == Some(b) && |store| > 0 && store[0].time >= b
    ensures Matches(store, q) == []
  {
    if |store| > 1 {
      assert store[1..][0] == store[1];
      NoneEarlier(store[1..], q, b);
    }
  }

  /** The query the sub-ranges amount to. */
  function CoveredQuery(q: Query): Query {
    if q.timeStart.Some? && q.timeEnd.Some? then q.(timeEnd := Some(Covered(q.timeStart.value, q.timeEnd.value))) else q
  }

  lemma BeyondOrdered(store: seq<Stored>, forward: bool, cursor: Option<MessageHash>)
    requires TimeOrdered(store) && (cursor.Some? ==> Holds(store, cursor.value))
    ensures TimeOrdered(Beyond(store, forward, cursor))
  {
  }

  /** One more sub-range: what it has to return follows what came before. */
  lemma NextRange(store: seq<Stored>, q: Query, queries: seq<Query>, i: nat)
    requires TimeOrdered(store) && (q.paginationCursor.Some? ==> Holds(store, q.paginationCursor.value))
    requires q.timeStart.Some? && q.timeEnd.Some? && Splits(q, queries) && 0 < i < |queries|
    requires q.timeStart.value <= queries[i - 1].timeEnd.value
    ensures q.timeStart.value <= queries[i].timeEnd.value
    ensures Remaining(store, q.(timeEnd := queries[i].timeEnd), q.paginationCursor) ==
            Remaining(store, q.(timeEnd := queries[i - 1].timeEnd), q.paginationCursor) +
            Remaining(store, queries[i], q.paginationCursor)
  {
    var part := Beyond(store, q.paginationForward, q.paginationCursor);
    BeyondOrdered(store, q.paginationForward, q.paginationCursor);
    var a, b, c := q.timeStart.value, queries[i - 1].timeEnd.value, queries[i].timeEnd.value;
    assert queries[i].timeStart == queries[i - 1].timeEnd;
    assert b <= c;
    AppendRanges(part, q, a, b, c);
    assert q.(timeStart := Some(a), timeEnd := Some(b)) == q.(timeEnd := queries[i - 1].timeEnd);
    assert q.(timeStart := Some(a), timeEnd := Some(c)) == q.(timeEnd := queries[i].timeEnd);
    assert q.(timeStart := Some(b), timeEnd := Some(c)) == queries[i];
  }

  /** Every sub-range in turn, none of them tripping the guard on long ranges. Forward,
      the pages hold the covered range once and in order; backward, each sub-range is
      read from its newest page, and the sub-ranges still come oldest first. */
  method QueryGenerator(q: Query, server: Server, ghost store: seq<Stored>)
    returns (pages: seq<Page>, ghost queries: seq<Query>, ghost groups: seq<seq<Page>>)
    requires TimeOrdered(store) && UniqueHashes(store) && Honours(server, store)
    requires q.paginationCursor.Some? ==> Holds(store, q.paginationCursor.value)
    ensures PagesOk(pages)
    ensures q.paginationForward ==> Chronological(true, pages) == Remaining(store, CoveredQuery(q), q.paginationCursor)
    ensures !q.paginationForward && !TooLong(q) ==>
            Chronological(false, pages) == Remaining(store, q, q.paginationCursor)
    ensures q.timeStart.Some? && q.timeEnd.Some? ==> Splits(q, queries)
    ensures pages == Flatten(groups) && |groups| == |queries|
    ensures GroupsOk(store, q, queries, groups)
  {
    hide Remaining, Chronological, Honours, UniqueHashes, TimeOrdered, PagesOk, Covered, Holds, Splits, SoFar,
        GroupsOk, TooLong;
    var queryOptions := BuildQueryParams(q);
    queries := queryOptions;
    pages, groups := [], [];
    QueriesFit(store, q, queries);
    for i := 0 to |queryOptions|
      invariant PagesOk(pages) && pages == Flatten(groups) && |groups| == i
      invariant GroupsOk(store, q, queries, groups)
      invariant i == 1 ==> pages == groups[0]
      invariant SoFar(store, q, queries, i, pages)
    {
      var r := QueryPerPage(queryOptions[i], server, store);
      PagesOkConcat(pages, r.value);
      FlattenSnoc(groups, r.value);
      GeneratorStep(store, q, queries, i, pages, r.value);
      GroupsSnoc(store, q, queries, groups, r.value);
      groups := groups + [r.value];
      pages := pages + r.value;
    }
    GeneratorEnd(store, q, queries, pages);
    if !TooLong(q) { FirstGroup(store, q, queries, groups); }
  }

  lemma FirstGroup(store: seq<Stored>, q: Query, queries: seq<Query>, groups: seq<seq<Page>>)
    requires q.paginationCursor.Some? ==> Holds(store, q.paginationCursor.value)
    requires GroupsOk(store, q, queries, groups) && |groups| > 0
    ensures Chronological(q.paginationForward, groups[0]) == Remaining(store, queries[0], q.paginationCursor)
  {
    hide Chronological, Remaining, Holds;
  }

  /** The pages of each sub-range hold what that sub-range has to return. */
  ghost predicate GroupsOk(store: seq<Stored>, q: Query, queries: seq<Query>, groups: seq<seq<Page>>)
    requires q.paginationCursor.Some? ==> Holds(store, q.paginationCursor.value)
  {
    && |groups| <= |queries|
    && forall i :: 0 <= i < |groups| ==>
         && queries[i].paginationForward == q.paginationForward
         && Chronological(q.paginationForward, groups[i]) == Remaining(store, queries[i], q.paginationCursor)
  }

  lemma GroupsSnoc(store: seq<Stored>, q: Query, queries: seq<Query>, groups: seq<seq<Page>>, more: seq<Page>)
    requires q.paginationCursor.Some? ==> Holds(store, q.paginationCursor.value)
    requires GroupsOk(store, q, queries, groups) && |groups| < |queries|
    requires queries[|groups|].paginationForward == q.paginationForward
    requires Chronological(q.paginationForward, more) == Remaining(store, queries[|groups|], q.paginationCursor)
    ensures GroupsOk(store, q, queries, groups + [more])
  {
    hide Chronological, Remaining, Holds;
  }

  ghost predicate Planned(q: Query, queries: seq<Query>) {
    if q.timeStart.Some? && q.timeEnd.Some? then Splits(q, queries) else queries == [q]
  }

  /** After `i` sub-ranges read forward the pages hold the range up to there. */
  ghost predicate SoFar(store: seq<Stored>, q: Query, queries: seq<Query>, i: nat, pages: seq<Page>)
    requires q.paginationCursor.Some? ==> Holds(store, q.paginationCursor.value)
    requires i <= |queries|
  {
    if i == 0 then pages == []
    else
      && (q.timeStart.Some? && q.timeEnd.Some? && |queries| > 1 ==>
            queries[i - 1].timeEnd.Some? && q.timeStart.value <= queries[i - 1].timeEnd.value)
      && (q.paginationForward ==>
            Chronological(true, pages) == Remaining(store, q.(timeEnd := queries[i - 1].timeEnd), q.paginationCursor))
  }

  lemma QueriesFit(store: seq<Stored>, q: Query, queries: seq<Query>)
    requires Planned(q, queries) && (q.paginationCursor.Some? ==> Holds(store, q.paginationCursor.value))
    ensures |queries| > 0 && PagesOk([]) && SoFar(store, q, queries, 0, []) && GroupsOk(store, q, queries, [])
    ensures forall i :: 0 <= i < |queries| ==>
              && !TooLong(queries[i]) && queries[i].paginationCursor == q.paginationCursor
              && queries[i].paginationForward == q.paginationForward
  {
  }

  lemma GeneratorStep(store: seq<Stored>, q: Query, queries: seq<Query>, i: nat, pages: seq<Page>, more: seq<Page>)
    requires TimeOrdered(store) && (q.paginationCursor.Some? ==> Holds(store, q.paginationCursor.value))
    requires Planned(q, queries) && i < |queries| && SoFar(store, q, queries, i, pages)
    requires queries[i].paginationCursor == q.paginationCursor
    requires Chronological(q.paginationForward, more) == Remaining(store, queries[i], q.paginationCursor)
    ensures SoFar(store, q, queries, i + 1, pages + more) && (i == 0 ==> pages + more == more)
  {
    hide Remaining, Chronological, TimeOrdered, Covered, Holds;
    if i == 0 {
      assert pages + more == more;
      assert queries[0] == q.(timeEnd := queries[0].timeEnd);
    } else {
      NextRange(store, q, queries, i);
      ChronologicalConcat(pages, more);
    }
  }

  lemma GeneratorEnd(store: seq<Stored>, q: Query, queries: seq<Query>, pages: seq<Page>)
    requires q.paginationCursor.Some? ==> Holds(store, q.paginationCursor.value)
    requires Planned(q, queries) && |queries| > 0 && SoFar(store, q, queries, |queries|, pages)
    ensures q.paginationForward ==> Chronological(true, pages) == Remaining(store, CoveredQuery(q), q.paginationCursor)
    ensures !TooLong(q) ==> queries == [q]
  {
    hide Remaining, Chronological, Covered, Holds;
    if q.timeStart.Some? && q.timeEnd.Some? {
      assert q.(timeEnd := queries[|queries| - 1].timeEnd) == CoveredQuery(q);
      if !TooLong(q) { OneRange(q, queries); }
    }
  }

  lemma PagesOkConcat(a: seq<Page>, b: seq<Page>)
    requires PagesOk(a) && PagesOk(b)
    ensures PagesOk(a + b)
  {
  }

  lemma ChronologicalConcat(a: seq<Page>, b: seq<Page>)
    ensures Chronological(true, a + b) == Chronological(true, a) + Chronological(true, b)
  {
    FlattenAppend(a, b);
  }

  /** A range that fits the limit is queried whole. */
  lemma OneRange(q: Query, queries: seq<Query>)
    requires q.timeStart.Some? && q.timeEnd.Some? && Splits(q, queries) && !TooLong(q)
    ensures queries == [q]
  {
  }

  lemma {:induction false} MatchesInRange(store: seq<Stored>, q: Query)
    ensures forall m :: m in Matches(store, q) <==> m in store && InRange(q, m)
  {
    if |store| > 0 {
      MatchesInRange(store[1..], q);
      assert store == [store[0]] + store[1..];
    }
  }

  /** The split query returns what the unsplit one would exactly when the range fits
      the limit or nothing that the cursor still leaves lies in the last remainder,
      which is never empty and never longer than the limit. */
  lemma SplitExact(store: seq<Stored>, q: Query)
    requires TimeOrdered(store) && (q.paginationCursor.Some? ==> Holds(store, q.paginationCursor.value))
    requires q.timeStart.Some? && q.timeEnd.Some?
    ensures var covered := Covered(q.timeStart.value, q.timeEnd.value);
            && (Remaining(store, CoveredQuery(q), q.paginationCursor) == Remaining(store, q, q.paginationCursor) <==>
                !TooLong(q) || forall m :: m in Remaining(store, q, q.paginationCursor) ==> m.time < covered)
            && (TooLong(q) ==> 0 < q.timeEnd.value - covered <= MAX_TIME_RANGE)
  {
    var a, c := q.timeStart.value, q.timeEnd.value;
    var b := Covered(a, c);
    CoveredBounds(a, c);
    var part := Beyond(store, q.paginationForward, q.paginationCursor);
    BeyondOrdered(store, q.paginationForward, q.paginationCursor);
    if TooLong(q) {
      hide Covered, Beyond;
      AppendRanges(part, q, a, b, c);
      assert q.(timeStart := Some(a), timeEnd := Some(c)) == q;
      assert q.(timeStart := Some(a), timeEnd := Some(b)) == CoveredQuery(q);
      var lost := Matches(part, q.(timeStart := Some(b), timeEnd := Some(c)));
      MatchesInRange(part, q);
      MatchesInRange(part, q.(timeStart := Some(b), timeEnd := Some(c)));
      if |lost| > 0 {
        assert lost[0] in lost && lost[0] in Remaining(store, q, q.paginationCursor);
      }
      assert forall m :: m in Remaining(store, q, q.paginationCursor) && m.time >= b ==> m in lost;
    } else {
      assert CoveredQuery(q) == q;
    }
  }

  /** Messages in the remainder are lost: a range of a day and a millisecond misses the
      message sent in that millisecond. */
  lemma RemainderLost()
    ensures var day := 86_400_000;
            var store := [Stored([1], 0), Stored([2], day)];
            var q := Query(Some(0), Some(day + 1), None, true, None);
            && TimeOrdered(store) && UniqueHashes(store)
            && Remaining(store, q, None) == store
            && Remaining(store, CoveredQuery(q), None) == store[..1]
  {
    var day := 86_400_000;
    var store := [Stored([1], 0), Stored([2], day)];
    var q := Query(Some(0), Some(day + 1), None, true, None);
    assert store[1..] == [Stored([2], day)] && store[1..][1..] == [];
    assert CoveredQuery(q) == q.(timeEnd := Some(day));
    assert Matches(store[1..][1..], q) == [] && Matches(store[1..][1..], CoveredQuery(q)) == [];
    assert Matches(store[1..], q) == store[1..] && Matches(store[1..], CoveredQuery(q)) == [];
    assert store == [store[0]] + store[1..];
    assert store[0].messageHash[0] == 1 && store[1].messageHash[0] == 2;
  }
}
