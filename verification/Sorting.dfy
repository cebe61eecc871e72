/** Insertion sort by any total order; elements that the order does not tell apart keep their order. */
module Sorting {

  ghost predicate TotalOrder<T(!new)>(le: (T, T) -> bool) {
    && (forall a, b :: le(a, b) || le(b, a))
    && (forall a, b, c :: le(a, b) && le(b, c) ==> le(a, c))
  }

  ghost predicate InOrder<T>(s: seq<T>, le: (T, T) -> bool) {
    forall i, j :: 0 <= i < j < |s| ==> le(s[i], s[j])
  }

  function Insert<T>(s: seq<T>, e: T, le: (T, T) -> bool): (r: seq<T>)
    ensures |r| == |s| + 1
  {
    if s == [] then [e]
    else
      var m := |s| - 1;
      if le(s[m], e) then s + [e] else Insert(s[..m], e, le) + [s[m]]
  }

  lemma {:induction false} InsertBelow<T>(s: seq<T>, e: T, b: T, le: (T, T) -> bool)
    requires le(e, b) && forall i :: 0 <= i < |s| ==> le(s[i], b)
    ensures forall i :: 0 <= i < |s| + 1 ==> le(Insert(s, e, le)[i], b)
  {
    if s != [] {
      InsertBelow(s[..|s| - 1], e, b, le);
    }
  }

  lemma {:induction false} InsertInOrder<T(!new)>(s: seq<T>, e: T, le: (T, T) -> bool)
    requires TotalOrder(le) && InOrder(s, le)
    ensures InOrder(Insert(s, e, le), le)
  {
    if s != [] {
      var m := |s| - 1;
      if le(s[m], e) {
        assert forall i :: 0 <= i < m ==> le(s[i], s[m]);
      } else {
        InsertInOrder(s[..m], e, le);
        InsertBelow(s[..m], e, s[m], le);
      }
    }
  }

  function Sorted<T>(s: seq<T>, le: (T, T) -> bool): (r: seq<T>)
    ensures |r| == |s|
  {
    if s == [] then [] else Insert(Sorted(s[..|s| - 1], le), s[|s| - 1], le)
  }

  lemma {:induction false} InsertKeeps<T>(s: seq<T>, e: T, le: (T, T) -> bool)
    ensures multiset(Insert(s, e, le)) == multiset(s) + multiset{e}
  {
    if s != [] {
      var m := |s| - 1;
      assert s == s[..m] + [s[m]];
      InsertKeeps(s[..m], e, le);
    }
  }

  /** Nothing is lost or added. */
  lemma {:induction false} SortedKeeps<T>(s: seq<T>, le: (T, T) -> bool)
    ensures multiset(Sorted(s, le)) == multiset(s)
  {
    if s != [] {
      var m := |s| - 1;
      assert s == s[..m] + [s[m]];
      SortedKeeps(s[..m], le);
      InsertKeeps(Sorted(s[..m], le), s[m], le);
    }
  }

  lemma {:induction false} SortedInOrder<T(!new)>(s: seq<T>, le: (T, T) -> bool)
    requires TotalOrder(le)
    ensures InOrder(Sorted(s, le), le)
  {
    if s != [] {
      var m := |s| - 1;
      SortedInOrder(s[..m], le);
      InsertInOrder(Sorted(s[..m], le), s[m], le);
    }
  }

  lemma {:induction false} SortedAlready<T>(s: seq<T>, le: (T, T) -> bool)
    requires InOrder(s, le)
    ensures Sorted(s, le) == s
  {
    if s != [] {
      var m := |s| - 1;
      SortedAlready(s[..m], le);
      assert s == s[..m] + [s[m]];
    }
  }

  /** No two elements count as equal in the order. */
  ghost predicate Strict<T(!new)>(le: (T, T) -> bool) {
    forall a, b :: le(a, b) && le(b, a) ==> a == b
  }

  /** Then there is only one way to put elements in order. */
  lemma {:induction false} OneOrder<T(!new)>(s: seq<T>, r: seq<T>, le: (T, T) -> bool)
    requires Strict(le) && InOrder(s, le) && InOrder(r, le) && multiset(s) == multiset(r)
    ensures s == r
  {
    SameLength(s, r);
    hide InOrder, Strict;
    if s != [] {
      var m := |s| - 1;
      SameLast(s, r, le, m);
      WithoutLast(s, r);
      FirstInOrder(s, le);
      FirstInOrder(r, le);
      OneOrder(s[..m], r[..m], le);
      SameWithLast(s, r, m);
    }
  }

  lemma SameWithLast<T>(s: seq<T>, r: seq<T>, m: nat)
    requires |s| == |r| == m + 1 && s[..m] == r[..m] && s[m] == r[m]
    ensures s == r
  {
    assert s == s[..m] + [s[m]] && r == r[..m] + [r[m]];
  }

  lemma FirstInOrder<T>(s: seq<T>, le: (T, T) -> bool)
    requires s != [] && InOrder(s, le)
    ensures InOrder(s[..|s| - 1], le)
  {
  }

  lemma SameLength<T>(s: seq<T>, r: seq<T>)
    requires multiset(s) == multiset(r)
    ensures |s| == |r|
  {
    assert |s| == |multiset(s)| == |multiset(r)| == |r|;
  }

  lemma WithoutLast<T>(s: seq<T>, r: seq<T>)
    requires s != [] && |s| == |r| && s[|s| - 1] == r[|s| - 1] && multiset(s) == multiset(r)
    ensures multiset(s[..|s| - 1]) == multiset(r[..|s| - 1])
  {
    assert s == s[..|s| - 1] + [s[|s| - 1]] && r == r[..|s| - 1] + [r[|s| - 1]];
    assert multiset(s[..|s| - 1]) == multiset(s) - multiset{s[|s| - 1]};
    assert multiset(r[..|s| - 1]) == multiset(r) - multiset{r[|s| - 1]};
  }

  lemma SameLast<T(!new)>(s: seq<T>, r: seq<T>, le: (T, T) -> bool, m: nat)
    requires Strict(le) && InOrder(s, le) && InOrder(r, le) && multiset(s) == multiset(r)
    requires |s| == |r| == m + 1
    ensures s[m] == r[m]
  {
    assert s[m] in multiset(r) && r[m] in multiset(s);
    var i :| 0 <= i <= m && r[i] == s[m];
    var j :| 0 <= j <= m && s[j] == r[m];
    assert i < m ==> le(r[i], r[m]);
    assert j < m ==> le(s[j], s[m]);
  }
}
