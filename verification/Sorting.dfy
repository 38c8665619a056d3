/** Stable sorting by an integer key, as the tools' `sorted` does it. */
module Sorting {

  ghost predicate Sorted<T>(s: seq<T>, key: T -> int) {
    forall i, j :: 0 <= i < j < |s| ==> key(s[i]) <= key(s[j])
  }

  /** Behind all elements with the same key, so that the order of equals is kept. */
  function Insert<T>(s: seq<T>, x: T, key: T -> int): (r: seq<T>)
    ensures |r| == |s| + 1
  {
    if s == [] || key(s[|s| - 1]) <= key(x) then s + [x]
    else Insert(s[..|s| - 1], x, key) + [s[|s| - 1]]
  }

  function Sort<T>(s: seq<T>, key: T -> int): (r: seq<T>)
    ensures |r| == |s|
  {
    if s == [] then [] else Insert(Sort(s[..|s| - 1], key), s[|s| - 1], key)
  }

  lemma {:induction false} InsertPermutes<T>(s: seq<T>, x: T, key: T -> int)
    ensures multiset(Insert(s, x, key)) == multiset(s) + multiset{x}
  {
    if s != [] && key(s[|s| - 1]) > key(x) {
      InsertPermutes(s[..|s| - 1], x, key);
      assert s == s[..|s| - 1] + [s[|s| - 1]];
    }
  }

  lemma {:induction false} InsertSorts<T>(s: seq<T>, x: T, key: T -> int, limit: int)
    requires Sorted(s, key) && key(x) <= limit && forall i :: 0 <= i < |s| ==> key(s[i]) <= limit
    ensures Sorted(Insert(s, x, key), key)
    ensures forall i :: 0 <= i < |s| + 1 ==> key(Insert(s, x, key)[i]) <= limit
  {
    if s != [] && key(s[|s| - 1]) > key(x) {
      InsertSorts(s[..|s| - 1], x, key, key(s[|s| - 1]));
    }
  }

  lemma {:induction false} SortPermutes<T>(s: seq<T>, key: T -> int)
    ensures multiset(Sort(s, key)) == multiset(s)
  {
    if s != [] {
      SortPermutes(s[..|s| - 1], key);
      InsertPermutes(Sort(s[..|s| - 1], key), s[|s| - 1], key);
      hide Insert;
      assert s == s[..|s| - 1] + [s[|s| - 1]];
    }
  }

  lemma {:induction false} SortSorts<T>(s: seq<T>, key: T -> int)
    ensures Sorted(Sort(s, key), key)
  {
    if s != [] {
      var front, x := Sort(s[..|s| - 1], key), s[|s| - 1];
      SortSorts(s[..|s| - 1], key);
      InsertSorts(front, x, key, MaxKey(front, key, key(x)));
    }
  }

  function MaxKey<T>(s: seq<T>, key: T -> int, least: int): (m: int)
    ensures m >= least && forall i :: 0 <= i < |s| ==> key(s[i]) <= m
  {
    if s == [] then least
    else
      var m := MaxKey(s[..|s| - 1], key, least);
      if key(s[|s| - 1]) > m then key(s[|s| - 1]) else m
  }

  lemma {:induction false} InsertKeepsFirst<T>(s: seq<T>, x: T, key: T -> int)
    requires Sorted(s, key)
    ensures Insert(s, x, key)[0] == if s == [] || key(x) < key(s[0]) then x else s[0]
  {
    if s != [] && key(s[|s| - 1]) > key(x) {
      InsertKeepsFirst(s[..|s| - 1], x, key);
    }
  }

  /** The first element of the sorted sequence is the earliest of those with the least key. */
  lemma {:induction false} FirstOfSorted<T>(s: seq<T>, key: T -> int) returns (i: nat)
    requires s != []
    ensures i < |s| && Sort(s, key)[0] == s[i]
    ensures forall j :: 0 <= j < |s| ==> if j < i then key(s[i]) < key(s[j]) else key(s[i]) <= key(s[j])
  {
    var front, x := s[..|s| - 1], s[|s| - 1];
    SortSorts(front, key);
    InsertKeepsFirst(Sort(front, key), x, key);
    i := |front|;
    if front != [] {
      var k := FirstOfSorted(front, key);
      i := if key(x) < key(front[k]) then i else k;
    }
  }

  lemma InsertLast<T>(s: seq<T>, x: T, key: T -> int)
    requires s == [] || key(s[|s| - 1]) <= key(x)
    ensures Insert(s, x, key) == s + [x]
  {
  }

  lemma SortedFront<T>(s: seq<T>, key: T -> int)
    requires Sorted(s, key) && s != []
    ensures Sorted(s[..|s| - 1], key)
    ensures |s| > 1 ==> key(s[|s| - 2]) <= key(s[|s| - 1])
  {
    var front := s[..|s| - 1];
    forall i, j | 0 <= i < j < |front| ensures key(front[i]) <= key(front[j]) {
      assert key(s[i]) <= key(s[j]);
    }
  }

  /** A sequence in order is left as it is. */
  lemma {:induction false} SortedStays<T>(s: seq<T>, key: T -> int)
    requires Sorted(s, key)
    ensures Sort(s, key) == s
  {
    hide Insert, Sorted;
    if s != [] {
      SortedFront(s, key);
      SortedStays(s[..|s| - 1], key);
      InsertLast(s[..|s| - 1], s[|s| - 1], key);
    }
  }

  /** The elements with one key, in their order. */
  function WithKey<T>(s: seq<T>, key: T -> int, k: int): seq<T> {
    if s == [] then []
    else WithKey(s[..|s| - 1], key, k) + if key(s[|s| - 1]) == k then [s[|s| - 1]] else []
  }

  lemma WithKeyAppend<T>(s: seq<T>, x: T, key: T -> int, k: int)
    ensures WithKey(s + [x], key, k) == WithKey(s, key, k) + if key(x) == k then [x] else []
  {
    assert (s + [x])[..|s|] == s;
  }

  lemma {:induction false} InsertStable<T>(s: seq<T>, x: T, key: T -> int, k: int)
    ensures WithKey(Insert(s, x, key), key, k) == WithKey(s + [x], key, k)
  {
    WithKeyAppend(s, x, key, k);
    if s != [] && key(s[|s| - 1]) > key(x) {
      var front, last := s[..|s| - 1], s[|s| - 1];
      InsertStable(front, x, key, k);
      WithKeyAppend(front, x, key, k);
      WithKeyAppend(Insert(front, x, key), last, key, k);
    }
  }

  /** Elements with the same key keep their order. */
  lemma {:induction false} SortStable<T>(s: seq<T>, key: T -> int, k: int)
    ensures WithKey(Sort(s, key), key, k) == WithKey(s, key, k)
  {
    if s != [] {
      var front, last := s[..|s| - 1], s[|s| - 1];
      SortStable(front, key, k);
      InsertStable(Sort(front, key), last, key, k);
      WithKeyAppend(Sort(front, key), last, key, k);
    }
  }
}
