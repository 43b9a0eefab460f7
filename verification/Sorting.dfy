/** The stable sort of JavaScript's `Array.prototype.sort`, as insertion into a
    sorted prefix: an element lands after everything it does not strictly precede. */
module Sorting {
  import opened Basics

  ghost predicate TotalPreorder<T(!new)>(leq: (T, T) -> bool) {
    && (forall x, y :: leq(x, y) || leq(y, x))
    && (forall x, y, z :: leq(x, y) && leq(y, z) ==> leq(x, z))
  }

  ghost predicate Sorted<T>(s: seq<T>, leq: (T, T) -> bool) {
    forall i, j :: 0 <= i < j < |s| ==> leq(s[i], s[j])
  }

  function InsertSorted<T>(s: seq<T>, x: T, leq: (T, T) -> bool): seq<T> {
    if |s| == 0 || leq(s[|s| - 1], x) then s + [x]
    else InsertSorted(s[..|s| - 1], x, leq) + [s[|s| - 1]]
  }

  function StableSort<T>(s: seq<T>, leq: (T, T) -> bool): seq<T> {
    if |s| == 0 then [] else InsertSorted(StableSort(s[..|s| - 1], leq), s[|s| - 1], leq)
  }

  lemma {:induction false} InsertSortedContents<T>(s: seq<T>, x: T, leq: (T, T) -> bool)
    ensures multiset(InsertSorted(s, x, leq)) == multiset(s + [x])
    ensures |InsertSorted(s, x, leq)| == |s| + 1
    ensures Elems(InsertSorted(s, x, leq)) == Elems(s) + {x}
  {
    if |s| == 0 || leq(s[|s| - 1], x) {
    } else {
      var p, l := s[..|s| - 1], s[|s| - 1];
      InsertSortedContents(p, x, leq);
      assert s == p + [l];
      ElemsAppend(InsertSorted(p, x, leq), [l]);
      ElemsAppend(p, [l]);
    }
  }

  lemma {:induction false} InsertSortedSorted<T(!new)>(s: seq<T>, x: T, leq: (T, T) -> bool)
    requires TotalPreorder(leq) && Sorted(s, leq)
    ensures Sorted(InsertSorted(s, x, leq), leq)
  {
    if |s| == 0 || leq(s[|s| - 1], x) {
    } else {
      var p, l := s[..|s| - 1], s[|s| - 1];
      InsertSortedSorted(p, x, leq);
      InsertSortedContents(p, x, leq);
      var r := InsertSorted(p, x, leq);
      forall i | 0 <= i < |r| ensures leq(r[i], l) {
        assert r[i] in Elems(r);
      }
    }
  }

  /** The sorted result holds exactly the input, repetitions included. */
  lemma {:induction false} StableSortContents<T>(s: seq<T>, leq: (T, T) -> bool)
    ensures multiset(StableSort(s, leq)) == multiset(s)
    ensures |StableSort(s, leq)| == |s|
    ensures Elems(StableSort(s, leq)) == Elems(s)
  {
    if |s| > 0 {
      var p := s[..|s| - 1];
      assert s == p + [s[|s| - 1]];
      StableSortContents(p, leq);
      InsertSortedContents(StableSort(p, leq), s[|s| - 1], leq);
      ElemsAppend(p, [s[|s| - 1]]);
    }
  }

  lemma {:induction false} StableSortSorted<T(!new)>(s: seq<T>, leq: (T, T) -> bool)
    requires TotalPreorder(leq)
    ensures Sorted(StableSort(s, leq), leq)
  {
    if |s| > 0 {
      StableSortSorted(s[..|s| - 1], leq);
      InsertSortedSorted(StableSort(s[..|s| - 1], leq), s[|s| - 1], leq);
    }
  }

  /** Sorting what is already sorted changes nothing, so appending one element
      to a sorted array and sorting again is one insertion. */
  lemma {:induction false} StableSortOfSorted<T>(s: seq<T>, leq: (T, T) -> bool)
    requires Sorted(s, leq)
    ensures StableSort(s, leq) == s
  {
    if |s| > 0 {
      var p := s[..|s| - 1];
      assert |p| > 0 ==> leq(p[|p| - 1], s[|s| - 1]);
      StableSortOfSorted(p, leq);
      hide StableSort, Sorted;
      StableSortUnfolds(s, leq);
      InsertLast(p, s[|s| - 1], leq);
      assert s == p + [s[|s| - 1]];
    }
  }

  lemma StableSortUnfolds<T>(s: seq<T>, leq: (T, T) -> bool)
    requires |s| > 0
    ensures StableSort(s, leq) == InsertSorted(StableSort(s[..|s| - 1], leq), s[|s| - 1], leq)
  {
    hide InsertSorted;
  }

  lemma InsertLast<T>(s: seq<T>, x: T, leq: (T, T) -> bool)
    requires |s| == 0 || leq(s[|s| - 1], x)
    ensures InsertSorted(s, x, leq) == s + [x]
  {
  }

  lemma StableSortSnoc<T>(s: seq<T>, x: T, leq: (T, T) -> bool)
    requires Sorted(s, leq)
    ensures StableSort(s + [x], leq) == InsertSorted(s, x, leq)
  {
    StableSortOfSorted(s, leq);
    assert (s + [x])[..|s|] == s;
  }
}
