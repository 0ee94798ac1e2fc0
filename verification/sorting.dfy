/** A stable sort by a numeric key, largest key first: the prelude.ts `sortBy` with a
    comparator `(x, y) => key(y) - key(x)` over the stable `Array.prototype.sort`. */
module Sorting {
  import opened Seqs

  ghost predicate SortedDesc<T>(s: seq<T>, key: T -> int)
  {
    forall i, j :: 0 <= i < j < |s| ==> key(s[i]) >= key(s[j])
  }

  function HasKey<T>(key: T -> int, k: int): T -> bool
  {
    (x: T) => key(x) == k
  }

  /** `x` placed after every element of `sorted` whose key is no smaller than its own. */
  function Insert<T>(sorted: seq<T>, x: T, key: T -> int): seq<T>
  {
    if sorted == [] then [x]
    else if key(sorted[|sorted| - 1]) >= key(x) then sorted + [x]
    else Insert(sorted[..|sorted| - 1], x, key) + [sorted[|sorted| - 1]]
  }

  /** Insertion sort, largest key first, ties in their original order. */
  function SortByKeyDesc<T>(s: seq<T>, key: T -> int): seq<T>
  {
    if s == [] then [] else Insert(SortByKeyDesc(s[..|s| - 1], key), s[|s| - 1], key)
  }

  lemma {:induction false} InsertKeepsElements<T>(sorted: seq<T>, x: T, key: T -> int)
    ensures multiset(Insert(sorted, x, key)) == multiset(sorted) + multiset{x}
  {
    if sorted != [] && key(sorted[|sorted| - 1]) < key(x) {
      var init, last := sorted[..|sorted| - 1], sorted[|sorted| - 1];
      InsertKeepsElements(init, x, key);
      assert sorted == init + [last];
    }
  }

  lemma {:induction false} InsertKeepsOrder<T>(sorted: seq<T>, x: T, key: T -> int)
    requires SortedDesc(sorted, key)
    ensures SortedDesc(Insert(sorted, x, key), key)
  {
    if sorted != [] && key(sorted[|sorted| - 1]) < key(x) {
      var init, last := sorted[..|sorted| - 1], sorted[|sorted| - 1];
      InsertKeepsOrder(init, x, key);
      InsertKeepsElements(init, x, key);
      var front := Insert(init, x, key);
      forall i | 0 <= i < |front|
        ensures key(front[i]) >= key(last)
      {
        assert front[i] in multiset(init) + multiset{x};
        if front[i] in init {
          var k :| 0 <= k < |init| && init[k] == front[i];
          assert sorted[k] == init[k];
        }
      }
    }
  }

  lemma {:induction false} InsertKeepsTies<T(!new)>(sorted: seq<T>, x: T, key: T -> int, k: int)
    ensures Filter(Insert(sorted, x, key), HasKey(key, k)) == Filter(sorted, HasKey(key, k)) + Filter([x], HasKey(key, k))
  {
    var p := HasKey(key, k);
    if sorted == [] {
      assert Filter(sorted, p) == [];
    } else if key(sorted[|sorted| - 1]) >= key(x) {
      FilterAppend(sorted, [x], p);
    } else {
      var init, last := sorted[..|sorted| - 1], sorted[|sorted| - 1];
      assert sorted == init + [last];
      var front := Insert(init, x, key);
      assert Insert(sorted, x, key) == front + [last];
      InsertKeepsTies(init, x, key, k);
      FilterAppend(front, [last], p);
      FilterAppend(init, [last], p);
      var fi, fx, fl := Filter(init, p), Filter([x], p), Filter([last], p);
      assert Filter(Insert(sorted, x, key), p) == fi + fx + fl;
      assert Filter(sorted, p) + fx == fi + fl + fx;
      if key(x) == k {
        assert fl == [];
      } else {
        assert fx == [];
      }
    }
  }

  /** The sort returns the same elements, largest key first, and the elements with
      the same key in their original order. */
  lemma {:induction false} SortByKeyDescSpec<T(!new)>(s: seq<T>, key: T -> int, k: int)
    ensures SortedDesc(SortByKeyDesc(s, key), key)
    ensures multiset(SortByKeyDesc(s, key)) == multiset(s)
    ensures Filter(SortByKeyDesc(s, key), HasKey(key, k)) == Filter(s, HasKey(key, k))
  {
    if s != [] {
      var init, last := s[..|s| - 1], s[|s| - 1];
      assert s == init + [last];
      var sortedInit := SortByKeyDesc(init, key);
      SortByKeyDescSpec(init, key, k);
      InsertKeepsOrder(sortedInit, last, key);
      InsertKeepsElements(sortedInit, last, key);
      InsertKeepsTies(sortedInit, last, key, k);
      FilterAppend(init, [last], HasKey(key, k));
    }
  }
}
