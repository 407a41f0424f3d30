/** Sort-Object: a list put in order by insertion, equals staying as they stood. */
module Sorting {

  function Insert<T(!new)>(t: T, ts: seq<T>, before: (T, T) -> bool): (r: seq<T>)
    ensures multiset(r) == multiset([t]) + multiset(ts)
    ensures |r| == |ts| + 1 && forall x :: x in r <==> x == t || x in ts
  {
    if ts == [] || before(t, ts[0]) then [t] + ts
    else
      assert ts == [ts[0]] + ts[1..];
      [ts[0]] + Insert(t, ts[1..], before)
  }

  function Sorted<T(!new)>(ts: seq<T>, before: (T, T) -> bool): (r: seq<T>)
    ensures multiset(r) == multiset(ts)
    ensures |r| == |ts| && forall x :: x in r <==> x in ts
  {
    if ts == [] then []
    else
      assert ts == [ts[0]] + ts[1..];
      Insert(ts[0], Sorted(ts[1..], before), before)
  }

  ghost predicate IsOrder<T(!new)>(before: (T, T) -> bool) {
    && (forall a, b :: before(a, b) || before(b, a))
    && (forall a, b, c :: before(a, b) && before(b, c) ==> before(a, c))
  }

  ghost predicate InOrder<T>(ts: seq<T>, before: (T, T) -> bool) {
    forall i, j :: 0 <= i < j < |ts| ==> before(ts[i], ts[j])
  }

  lemma {:induction false} InsertKeepsOrder<T(!new)>(t: T, ts: seq<T>, before: (T, T) -> bool)
    requires IsOrder(before) && InOrder(ts, before)
    ensures InOrder(Insert(t, ts, before), before)
  {
    if ts != [] && !before(t, ts[0]) {
      InsertKeepsOrder(t, ts[1..], before);
      assert forall x :: x in Insert(t, ts[1..], before) ==> before(ts[0], x);
    }
  }

  /** Sorting by an order puts a list in that order, and loses and adds nothing. */
  lemma {:induction false} SortedIsInOrder<T(!new)>(ts: seq<T>, before: (T, T) -> bool)
    requires IsOrder(before)
    ensures InOrder(Sorted(ts, before), before) && multiset(Sorted(ts, before)) == multiset(ts)
  {
    if ts != [] {
      SortedIsInOrder(ts[1..], before);
      InsertKeepsOrder(ts[0], Sorted(ts[1..], before), before);
    }
  }

  /** What is in order already stays as it is. */
  lemma {:induction false} SortedKeeps<T(!new)>(ts: seq<T>, before: (T, T) -> bool)
    requires InOrder(ts, before)
    ensures Sorted(ts, before) == ts
  {
    if ts != [] {
      SortedKeeps(ts[1..], before);
      assert ts == [ts[0]] + ts[1..];
    }
  }
}
