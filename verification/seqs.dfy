/** Generic sequence helpers standing in for the prelude.ts `Vector` operations
    the connector relies on: `filter`, `single`, `String.endsWith`. */
module Seqs {
  import opened Wrappers

  /** The elements of `s` that satisfy `p`, in their original order. */
  function Filter<T(!new)>(s: seq<T>, p: T -> bool): (r: seq<T>)
    ensures |r| <= |s|
    ensures forall x :: x in r <==> x in s && p(x)
  {
    if s == [] then [] else (if p(s[0]) then [s[0]] else []) + Filter(s[1..], p)
  }

  /** `Vector.single()`: the element of a one-element sequence, nothing otherwise. */
  function Single<T>(s: seq<T>): (r: Option<T>)
    ensures r.Some? <==> |s| == 1
    ensures r.Some? ==> r.value == s[0]
  {
    if |s| == 1 then Some(s[0]) else None
  }

  /** Exactly one position of `s` satisfies `p`, and it is `i`. */
  ghost predicate OnlyAt<T>(s: seq<T>, p: T -> bool, i: int)
  {
    0 <= i < |s| && p(s[i]) && forall j :: 0 <= j < |s| && p(s[j]) ==> j == i
  }

  predicate StartsWith<T(==)>(s: seq<T>, prefix: seq<T>)
  {
    |prefix| <= |s| && s[..|prefix|] == prefix
  }

  /** `String.prototype.endsWith`. */
  predicate EndsWith<T(==)>(s: seq<T>, suffix: seq<T>)
  {
    |suffix| <= |s| && s[|s| - |suffix|..] == suffix
  }

  lemma {:induction false} FilterAppend<T(!new)>(a: seq<T>, b: seq<T>, p: T -> bool)
    ensures Filter(a + b, p) == Filter(a, p) + Filter(b, p)
  {
    if a == [] {
      assert a + b == b;
    } else {
      assert (a + b)[1..] == a[1..] + b;
      FilterAppend(a[1..], b, p);
    }
  }

  /** Filtering with two predicates that agree on the elements gives the same result. */
  lemma {:induction false} FilterCongruent<T(!new)>(s: seq<T>, p: T -> bool, q: T -> bool)
    requires forall i :: 0 <= i < |s| ==> p(s[i]) == q(s[i])
    ensures Filter(s, p) == Filter(s, q)
  {
    if s != [] {
      FilterCongruent(s[1..], p, q);
    }
  }

  /** The zero case of the arity check: nothing passes the filter iff no element satisfies `p`. */
  lemma {:induction false} FilterEmptyIff<T(!new)>(s: seq<T>, p: T -> bool)
    ensures |Filter(s, p)| == 0 <==> forall i :: 0 <= i < |s| ==> !p(s[i])
  {
    if s != [] {
      var t := s[1..];
      FilterEmptyIff(t, p);
      assert forall k :: 0 <= k < |t| ==> t[k] == s[k + 1];
    }
  }

  /** The one case: exactly one element passes the filter iff exactly one position
      satisfies `p`, and that element is the one at that position. */
  lemma {:induction false} FilterSingleIff<T(!new)>(s: seq<T>, p: T -> bool)
    ensures |Filter(s, p)| == 1 <==> exists i :: OnlyAt(s, p, i)
    ensures forall i :: OnlyAt(s, p, i) ==> Filter(s, p) == [s[i]]
  {
    if s != [] {
      var t := s[1..];
      FilterSingleIff(t, p);
      FilterEmptyIff(t, p);
      forall i | 0 < i < |s| ensures s[i] == t[i - 1] { }
      if p(s[0]) {
        if |Filter(s, p)| == 1 {
          assert OnlyAt(s, p, 0);
        }
        forall i | OnlyAt(s, p, i) ensures Filter(s, p) == [s[i]] {
          assert i == 0;
          assert forall k :: 0 <= k < |t| ==> !p(t[k]);
        }
      } else {
        if |Filter(s, p)| == 1 {
          var k :| OnlyAt(t, p, k);
          assert OnlyAt(s, p, k + 1);
        }
        forall i | OnlyAt(s, p, i) ensures |Filter(s, p)| == 1 && Filter(s, p) == [s[i]] {
          assert i > 0;
          assert OnlyAt(t, p, i - 1);
        }
      }
    }
  }

  /** The many case: two different positions satisfy `p` iff at least two elements pass the filter. */
  lemma FilterManyIff<T(!new)>(s: seq<T>, p: T -> bool)
    ensures |Filter(s, p)| >= 2 <==> exists i, j :: 0 <= i < j < |s| && p(s[i]) && p(s[j])
  {
    FilterEmptyIff(s, p);
    FilterSingleIff(s, p);
    if exists i, j :: 0 <= i < j < |s| && p(s[i]) && p(s[j]) {
      var i, j :| 0 <= i < j < |s| && p(s[i]) && p(s[j]);
      assert !OnlyAt(s, p, i) && !OnlyAt(s, p, j);
      assert forall k :: OnlyAt(s, p, k) ==> k == i || k == j;
    }
  }

  /** Two concatenations that are equal and split at the same length have equal parts. */
  lemma ConcatCancel<T>(a1: seq<T>, b1: seq<T>, a2: seq<T>, b2: seq<T>)
    requires a1 + b1 == a2 + b2
    requires |a1| == |a2| || |b1| == |b2|
    ensures a1 == a2 && b1 == b2
  {
    assert a1 == (a1 + b1)[..|a1|];
    assert a2 == (a2 + b2)[..|a2|];
    assert b1 == (a1 + b1)[|a1|..];
    assert b2 == (a2 + b2)[|a2|..];
  }
}
