/**
 * Python's list.sort(key=...) and sorted(..., key=...): a stable sort by an
 * integer key. Sorting with reverse=True is the stable sort by the negated
 * key, which keeps equal keys in their input order just as Python does.
 * Specified by the three facts that determine a stable sort: the result is
 * ordered by key (SortOrdered), is a permutation of the input (Sort's own
 * contract), and lists the elements of each key in the order of the input
 * (SortStable).
 */
module StableSort {

  ghost predicate SortedBy<T>(s: seq<T>, key: T -> int) {
    forall i, j :: 0 <= i < j < |s| ==> key(s[i]) <= key(s[j])
  }

  /** The elements of s whose key is k, in the order of s. */
  ghost function WithKey<T>(s: seq<T>, key: T -> int, k: int): seq<T> {
    if s == [] then []
    else WithKey(s[..|s| - 1], key, k) + (if key(s[|s| - 1]) == k then [s[|s| - 1]] else [])
  }

  /** Place x after the trailing elements whose key is larger than its own. */
  function Insert<T>(s: seq<T>, x: T, key: T -> int): (r: seq<T>)
    ensures |r| == |s| + 1
    ensures multiset(r) == multiset(s) + multiset{x}
  {
    if s == [] || key(s[|s| - 1]) <= key(x) then
      s + [x]
    else
      var init, last := s[..|s| - 1], s[|s| - 1];
      assert s == init + [last];
      Insert(init, x, key) + [last]
  }

  /** The stable sort, as insertion sort from left to right. */
  function Sort<T>(s: seq<T>, key: T -> int): (r: seq<T>)
    ensures |r| == |s|
    ensures multiset(r) == multiset(s)
  {
    if s == [] then []
    else
      var init, last := s[..|s| - 1], s[|s| - 1];
      assert s == init + [last];
      Insert(Sort(init, key), last, key)
  }

  /** Everything in the sorted list comes from the input. */
  lemma SortMember<T>(s: seq<T>, key: T -> int, x: T)
    requires x in Sort(s, key)
    ensures x in s
  {
    assert x in multiset(Sort(s, key));
  }

  lemma {:induction false} InsertOrdered<T>(s: seq<T>, x: T, key: T -> int)
    requires SortedBy(s, key)
    ensures SortedBy(Insert(s, x, key), key)
  {
    if s != [] && key(s[|s| - 1]) > key(x) {
      var init, last := s[..|s| - 1], s[|s| - 1];
      assert s == init + [last];
      assert SortedBy(init, key);
      InsertOrdered(init, x, key);
      BoundedBelowLast(init, x, Insert(init, x, key), last, key);
    }
  }

  /** Appending an element whose key bounds every key of a sorted list keeps it sorted. */
  lemma BoundedBelowLast<T>(init: seq<T>, x: T, front: seq<T>, last: T, key: T -> int)
    requires SortedBy(init + [last], key) && key(x) < key(last)
    requires SortedBy(front, key) && multiset(front) == multiset(init) + multiset{x}
    ensures SortedBy(front + [last], key)
  {
    forall i | 0 <= i < |front|
      ensures key(front[i]) <= key(last)
    {
      assert front[i] in multiset(front);
      if front[i] != x {
        assert front[i] in multiset(init);
        var j :| 0 <= j < |init| && init[j] == front[i];
        assert (init + [last])[j] == init[j];
        assert (init + [last])[|init|] == last;
      }
    }
  }

  /** The sorted list is in key order. */
  lemma {:induction false} SortOrdered<T>(s: seq<T>, key: T -> int)
    ensures SortedBy(Sort(s, key), key)
  {
    if s != [] {
      var init := s[..|s| - 1];
      SortOrdered(init, key);
      InsertOrdered(Sort(init, key), s[|s| - 1], key);
    }
  }

  lemma WithKeyOfSnoc<T>(s: seq<T>, x: T, key: T -> int)
    ensures forall k :: WithKey(s + [x], key, k) == WithKey(s, key, k) + (if key(x) == k then [x] else [])
  {
    assert (s + [x])[..|s + [x]| - 1] == s;
  }

  /** Inserting x adds x at the end of the elements of its key, and changes no other key. */
  lemma {:induction false} InsertStable<T>(s: seq<T>, x: T, key: T -> int, k: int)
    ensures WithKey(Insert(s, x, key), key, k) == WithKey(s, key, k) + (if key(x) == k then [x] else [])
  {
    if s == [] || key(s[|s| - 1]) <= key(x) {
      WithKeyOfSnoc(s, x, key);
    } else {
      var init, last := s[..|s| - 1], s[|s| - 1];
      assert s == init + [last];
      InsertStable(init, x, key, k);
      WithKeyOfSnoc(Insert(init, x, key), last, key);
      WithKeyOfSnoc(init, last, key);
    }
  }

  /** Elements with equal keys keep their input order. */
  lemma {:induction false} SortStable<T>(s: seq<T>, key: T -> int, k: int)
    ensures WithKey(Sort(s, key), key, k) == WithKey(s, key, k)
  {
    if s != [] {
      var init, last := s[..|s| - 1], s[|s| - 1];
      assert s == init + [last];
      SortStable(init, key, k);
      InsertStable(Sort(init, key), last, key, k);
      WithKeyOfSnoc(init, last, key);
    }
  }

  /** Sorting a list that is already in key order leaves it as it is. */
  lemma {:induction false} SortOfSorted<T>(s: seq<T>, key: T -> int)
    requires SortedBy(s, key)
    ensures Sort(s, key) == s
  {
    if s != [] {
      SortedPrefix(s, key);
      SortOfSorted(s[..|s| - 1], key);
      LastIsLargest(s, key);
      SortOfSortedStep(s, key);
    }
  }

  /** The inductive step: the last element goes back to the end. */
  lemma SortOfSortedStep<T>(s: seq<T>, key: T -> int)
    requires s != [] && Sort(s[..|s| - 1], key) == s[..|s| - 1]
    requires var init := s[..|s| - 1]; init == [] || key(init[|init| - 1]) <= key(s[|s| - 1])
    ensures Sort(s, key) == s
  {
    var init, last := s[..|s| - 1], s[|s| - 1];
    InsertAtEnd(init, last, key);
    assert s == init + [last];
  }

  lemma LastIsLargest<T>(s: seq<T>, key: T -> int)
    requires SortedBy(s, key) && s != []
    ensures var init := s[..|s| - 1]; init == [] || key(init[|init| - 1]) <= key(s[|s| - 1])
  {
    if |s| >= 2 {
      assert key(s[|s| - 2]) <= key(s[|s| - 1]);
    }
  }

  lemma SortedPrefix<T>(s: seq<T>, key: T -> int)
    requires SortedBy(s, key) && s != []
    ensures SortedBy(s[..|s| - 1], key)
  {
  }

  lemma InsertAtEnd<T>(s: seq<T>, x: T, key: T -> int)
    requires s == [] || key(s[|s| - 1]) <= key(x)
    ensures Insert(s, x, key) == s + [x]
  {
  }
}
