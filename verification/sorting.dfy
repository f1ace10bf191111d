/**
 * Sorting by an integer key. pandas' `sort_values` defaults to an unstable
 * quicksort, so nothing about the order of equal keys is promised: the
 * contracts state only that the result is ordered and is a permutation of the
 * input. Insertion sort is one algorithm meeting that contract.
 */
module Sorting {
  import opened Seqs

  predicate NonIncreasing<T>(s: seq<T>, key: T -> int)
  {
    forall i, j :: 0 <= i < j < |s| ==> key(s[i]) >= key(s[j])
  }

  predicate NonDecreasing<T>(s: seq<T>, key: T -> int)
  {
    forall i, j :: 0 <= i < j < |s| ==> key(s[i]) <= key(s[j])
  }

  /** Inserts `x` into the non-increasing sequence `s`. */
  function Insert<T(==)>(x: T, s: seq<T>, key: T -> int): (r: seq<T>)
    requires NonIncreasing(s, key)
    ensures |r| == |s| + 1
    ensures multiset(r) == multiset(s) + multiset{x}
    ensures NonIncreasing(r, key)
    ensures NoDup(s) && x !in s ==> NoDup(r)
  {
    if |s| == 0 then [x]
    else if key(x) >= key(s[0]) then
      InsertInFront(x, s, key);
      [x] + s
    else
      var t := Insert(x, s[1..], key);
      InsertBehindHead(x, s, key, t);
      [s[0]] + t
  }

  /** An `x` at least as large as the head goes in front. */
  lemma InsertInFront<T>(x: T, s: seq<T>, key: T -> int)
    requires |s| > 0 && NonIncreasing(s, key) && key(x) >= key(s[0])
    ensures multiset([x] + s) == multiset(s) + multiset{x}
    ensures NonIncreasing([x] + s, key)
    ensures NoDup(s) && x !in s ==> NoDup([x] + s)
  {
    var r := [x] + s;
    forall i, j | 0 <= i < j < |r|
      ensures key(r[i]) >= key(r[j])
    {
      if i == 0 {
        assert r[j] == s[j - 1];
      } else {
        assert r[i] == s[i - 1] && r[j] == s[j - 1];
      }
    }
  }

  /**
   * An `x` smaller than the head goes behind it: with `t` the insertion of
   * `x` into the tail, the head followed by `t` is ordered and a permutation.
   */
  lemma InsertBehindHead<T>(x: T, s: seq<T>, key: T -> int, t: seq<T>)
    requires |s| > 0 && NonIncreasing(s, key) && key(x) < key(s[0])
    requires multiset(t) == multiset(s[1..]) + multiset{x}
    requires NonIncreasing(t, key)
    requires NoDup(s[1..]) && x !in s[1..] ==> NoDup(t)
    ensures multiset([s[0]] + t) == multiset(s) + multiset{x}
    ensures NonIncreasing([s[0]] + t, key)
    ensures NoDup(s) && x !in s ==> NoDup([s[0]] + t)
  {
    assert s == [s[0]] + s[1..];
    HeadDominates(s, key, x, t);
    var r := [s[0]] + t;
    forall i, j | 0 <= i < j < |r|
      ensures key(r[i]) >= key(r[j])
    {
      if i == 0 {
        assert r[j] == t[j - 1];
      } else {
        assert r[i] == t[i - 1] && r[j] == t[j - 1];
      }
    }
    if NoDup(s) && x !in s {
      assert NoDup(s[1..]) by {
        forall i, j | 0 <= i < j < |s[1..]|
          ensures s[1..][i] != s[1..][j]
        {
          assert s[1..][i] == s[i + 1] && s[1..][j] == s[j + 1];
        }
      }
      assert x !in s[1..];
    }
  }

  /**
   * The head of a non-increasing `s` is at least every element of `t`, a
   * permutation of `s`'s tail plus an `x` smaller than that head.
   */
  lemma HeadDominates<T>(s: seq<T>, key: T -> int, x: T, t: seq<T>)
    requires |s| > 0 && NonIncreasing(s, key) && key(x) < key(s[0])
    requires multiset(t) == multiset(s[1..]) + multiset{x}
    ensures forall j :: 0 <= j < |t| ==> key(s[0]) >= key(t[j])
    ensures NoDup(s) && x !in s && NoDup(t) ==> NoDup([s[0]] + t)
  {
    forall j | 0 <= j < |t|
      ensures key(s[0]) >= key(t[j])
    {
      assert t[j] in multiset(t);
      if t[j] != x {
        assert t[j] in multiset(s[1..]);
        var k :| 0 <= k < |s[1..]| && s[1..][k] == t[j];
        assert s[k + 1] == t[j];
      }
    }
    if NoDup(s) && x !in s && NoDup(t) {
      forall j | 0 <= j < |t|
        ensures t[j] != s[0]
      {
        assert t[j] in multiset(t);
        if t[j] != x {
          assert t[j] in multiset(s[1..]);
          var k :| 0 <= k < |s[1..]| && s[1..][k] == t[j];
          assert s[k + 1] == t[j];
        }
      }
    }
  }

  /** Sorts `s` by descending key. */
  function SortDesc<T(==)>(s: seq<T>, key: T -> int): (r: seq<T>)
    ensures |r| == |s|
    ensures multiset(r) == multiset(s)
    ensures NonIncreasing(r, key)
    ensures NoDup(s) ==> NoDup(r)
  {
    if |s| == 0 then []
    else
      assert s == [s[0]] + s[1..];
      var t := SortDesc(s[1..], key);
      NotInPermutation(s, t);
      Insert(s[0], t, key)
  }

  /** A repetition-free `s` has its head outside any permutation of its tail. */
  lemma NotInPermutation<T>(s: seq<T>, t: seq<T>)
    requires |s| > 0 && multiset(t) == multiset(s[1..])
    ensures NoDup(s) ==> NoDup(s[1..]) && s[0] !in t
  {
    if NoDup(s) {
      forall k | 0 <= k < |s| - 1
        ensures s[1..][k] != s[0]
      {
        assert s[1..][k] == s[k + 1];
      }
      assert s[0] !in multiset(s[1..]);
    }
  }

  /** Sorts `s` by ascending key. */
  function SortAsc<T(==)>(s: seq<T>, key: T -> int): (r: seq<T>)
    ensures |r| == |s|
    ensures multiset(r) == multiset(s)
    ensures NonDecreasing(r, key)
    ensures NoDup(s) ==> NoDup(r)
  {
    SortDesc(s, (x: T) => -key(x))
  }

  /** A prefix of a non-increasing sequence is non-increasing. */
  lemma TakeNonIncreasing<T>(s: seq<T>, key: T -> int, n: nat)
    requires NonIncreasing(s, key)
    ensures NonIncreasing(Take(s, n), key)
  {
    var t := Take(s, n);
    forall i, j | 0 <= i < j < |t|
      ensures key(t[i]) >= key(t[j])
    {
      assert t[i] == s[i] && t[j] == s[j];
    }
  }

  /**
   * After sorting by descending key and keeping the first `n` rows, every
   * row that was cut off has a key no larger than any row that was kept.
   */
  lemma TakeKeepsLargest<T>(s: seq<T>, key: T -> int, n: nat, y: T)
    requires NonIncreasing(s, key)
    requires y in s && y !in Take(s, n)
    ensures |Take(s, n)| == n
    ensures forall x :: x in Take(s, n) ==> key(x) >= key(y)
  {
    var t := Take(s, n);
    var j :| 0 <= j < |s| && s[j] == y;
    forall x | x in t
      ensures key(x) >= key(y)
    {
      var i :| 0 <= i < |t| && t[i] == x;
      assert s[i] == x;
    }
  }
}
