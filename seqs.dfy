/**
  Sequence helpers shared by the table transformations: duplicate-freedom,
  an order-preserving filter (a boolean row mask), subsequences, and the
  first-appearance de-duplication that `Series.unique()` performs.
 */
module Seqs {

  /** No element occurs twice. */
  predicate Distinct<T(==)>(s: seq<T>) {
    forall i, j :: 0 <= i < j < |s| ==> s[i] != s[j]
  }

  /** The elements of a sequence, as a set. */
  function Elements<T>(s: seq<T>): set<T> {
    set x | x in s
  }

  /** `r` can be obtained from `s` by deleting elements (relative order kept). */
  predicate Subsequence<T(==)>(r: seq<T>, s: seq<T>)
    decreases |s|
  {
    r == [] ||
    (s != [] &&
     if r[0] == s[0] then Subsequence(r[1..], s[1..]) else Subsequence(r, s[1..]))
  }

  /** Keeps, in order, the elements that satisfy `p`: a boolean mask over rows. */
  function Filter<T(==,!new)>(s: seq<T>, p: T -> bool): (r: seq<T>)
    ensures |r| <= |s|
    ensures forall x :: x in r <==> x in s && p(x)
  {
    if s == [] then []
    else
      assert s == [s[0]] + s[1..];
      var rest := Filter(s[1..], p);
      if p(s[0]) then [s[0]] + rest else rest
  }

  /** The mask keeps every selected element as often as it occurs, and nothing else. */
  lemma {:induction false} FilterCounts<T(!new)>(s: seq<T>, p: T -> bool)
    ensures forall x :: multiset(Filter(s, p))[x] == if p(x) then multiset(s)[x] else 0
  {
    if s != [] {
      FilterCounts(s[1..], p);
      assert s == [s[0]] + s[1..];
    }
  }

  /** The mask keeps the relative order of the elements it selects. */
  lemma {:induction false} FilterKeepsOrder<T(!new)>(s: seq<T>, p: T -> bool)
    ensures Subsequence(Filter(s, p), s)
  {
    if s != [] {
      FilterKeepsOrder(s[1..], p);
      var r := Filter(s, p);
      var rest := Filter(s[1..], p);
      if p(s[0]) {
        assert r == [s[0]] + rest && r[1..] == rest;
      } else {
        assert r == rest;
        assert r != [] ==> r[0] in rest && r[0] != s[0];
      }
    }
  }

  /** Filtering twice with the same mask is the same as filtering once. */
  lemma {:induction false} FilterIdempotent<T(!new)>(s: seq<T>, p: T -> bool)
    ensures Filter(Filter(s, p), p) == Filter(s, p)
  {
    if s != [] {
      FilterIdempotent(s[1..], p);
      if p(s[0]) {
        var r := Filter(s, p);
        assert r == [s[0]] + Filter(s[1..], p);
        assert r[0] == s[0] && r[1..] == Filter(s[1..], p);
      }
    }
  }

  /** The position of the first occurrence of `x` in `s`. */
  function FirstIndex<T(==)>(s: seq<T>, x: T): (i: nat)
    requires x in s
    ensures i < |s| && s[i] == x
    ensures forall j :: 0 <= j < i ==> s[j] != x
  {
    if s[0] == x then 0
    else
      assert forall j :: 1 <= j < |s| ==> s[1..][j - 1] == s[j];
      1 + FirstIndex(s[1..], x)
  }

  /** Appending an element leaves the first occurrences in the prefix where they were. */
  lemma {:induction false} FirstIndexAppend<T>(s: seq<T>, last: T)
    ensures forall x :: x in s ==> FirstIndex(s + [last], x) == FirstIndex(s, x)
    ensures last !in s ==> FirstIndex(s + [last], last) == |s|
  {
    forall x | x in s ensures FirstIndex(s + [last], x) == FirstIndex(s, x) {
      var i := FirstIndex(s, x);
      var k := FirstIndex(s + [last], x);
      assert (s + [last])[i] == x;
      assert s[k] == x;
    }
  }

  /** The distinct elements of `s` in order of first appearance. */
  function Unique<T(==,!new)>(s: seq<T>): (r: seq<T>)
    ensures Distinct(r)
    ensures forall x :: x in r <==> x in s
    ensures forall i, j :: 0 <= i < j < |r| ==> FirstIndex(s, r[i]) < FirstIndex(s, r[j])
    decreases |s|
  {
    if s == [] then []
    else
      var init := s[..|s| - 1];
      var last := s[|s| - 1];
      assert s == init + [last];
      var u := Unique(init);
      FirstIndexAppend(init, last);
      if last in u then u else u + [last]
  }

  /** A duplicate-free sequence is as long as its set of elements is large. */
  lemma {:induction false} DistinctCard<T>(s: seq<T>)
    requires Distinct(s)
    ensures |Elements(s)| == |s|
  {
    if s != [] {
      assert Distinct(s[1..]) by {
        forall i, j | 0 <= i < j < |s[1..]| ensures s[1..][i] != s[1..][j] {
          assert s[1..][i] == s[i + 1] && s[1..][j] == s[j + 1];
        }
      }
      DistinctCard(s[1..]);
      assert s[0] !in Elements(s[1..]) by {
        forall k | 0 <= k < |s[1..]| ensures s[1..][k] != s[0] {
          assert s[1..][k] == s[k + 1];
        }
      }
      assert Elements(s) == {s[0]} + Elements(s[1..]) by {
        assert s == [s[0]] + s[1..];
      }
    }
  }

  /** Concatenating two duplicate-free sequences with no common element is duplicate-free. */
  lemma DistinctConcat<T>(a: seq<T>, b: seq<T>)
    ensures Distinct(a) && Distinct(b) && (forall x :: x in a ==> x !in b) ==> Distinct(a + b)
  {
    if Distinct(a) && Distinct(b) && (forall x :: x in a ==> x !in b) {
      DistinctConcatParts(a, b);
    }
  }

  lemma DistinctConcatParts<T>(a: seq<T>, b: seq<T>)
    requires Distinct(a) && Distinct(b)
    requires forall x :: x in a ==> x !in b
    ensures Distinct(a + b)
  {
    forall i, j | 0 <= i < j < |a + b| ensures (a + b)[i] != (a + b)[j] {
      if j < |a| {
      } else if i >= |a| {
        assert (a + b)[i] == b[i - |a|] && (a + b)[j] == b[j - |a|];
      } else {
        assert (a + b)[i] in a && (a + b)[j] == b[j - |a|];
      }
    }
  }
}
