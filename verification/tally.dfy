/**
 * Counting and grouping over key sequences: the `groupby(...).size()` and
 * `value_counts()` steps every chart builder uses. A chart first projects
 * each selected record to its grouping key; these functions then count keys.
 */
module Tally {
  import opened Seqs
  import opened Sorting

  /** Number of occurrences of `k` in `xs`. */
  function Count<K(==)>(xs: seq<K>, k: K): (n: nat)
    ensures n <= |xs|
    ensures n > 0 <==> k in xs
  {
    if |xs| == 0 then 0
    else
      assert xs == xs[..|xs| - 1] + [xs[|xs| - 1]];
      Count(xs[..|xs| - 1], k) + (if xs[|xs| - 1] == k then 1 else 0)
  }

  lemma CountSnoc<K>(xs: seq<K>, x: K, k: K)
    ensures Count(xs + [x], k) == Count(xs, k) + (if x == k then 1 else 0)
  {
    assert (xs + [x])[..|xs|] == xs;
  }

  /** A key listed once in a repetition-free sequence is counted once. */
  lemma {:induction false} CountInNoDup<K>(ks: seq<K>, x: K)
    requires NoDup(ks) && x in ks
    ensures Count(ks, x) == 1
  {
    var p := ks[..|ks| - 1];
    assert ks == p + [ks[|ks| - 1]];
    if ks[|ks| - 1] == x {
      assert x !in p;
    } else {
      assert NoDup(p);
      CountInNoDup(p, x);
    }
  }

  /** The distinct keys of `xs`, in order of first occurrence. */
  function Distinct<K(==,!new)>(xs: seq<K>): (ks: seq<K>)
    ensures NoDup(ks)
    ensures forall k :: k in ks <==> k in xs
  {
    if |xs| == 0 then []
    else
      var p := xs[..|xs| - 1];
      var d := Distinct(p);
      assert xs == p + [xs[|xs| - 1]];
      if xs[|xs| - 1] in d then d else d + [xs[|xs| - 1]]
  }

  /** Sum over the keys `ks` of their counts in `xs`. */
  function SumCounts<K(==)>(xs: seq<K>, ks: seq<K>): nat
  {
    if |ks| == 0 then 0 else SumCounts(xs, ks[..|ks| - 1]) + Count(xs, ks[|ks| - 1])
  }

  lemma {:induction false} SumCountsSnoc<K>(xs: seq<K>, x: K, ks: seq<K>)
    ensures SumCounts(xs + [x], ks) == SumCounts(xs, ks) + Count(ks, x)
  {
    if |ks| > 0 {
      var p := ks[..|ks| - 1];
      assert ks == p + [ks[|ks| - 1]];
      SumCountsSnoc(xs, x, p);
      CountSnoc(xs, x, ks[|ks| - 1]);
      CountSnoc(p, ks[|ks| - 1], x);
    }
  }

  lemma {:induction false} SumCountsOfNothing<K>(ks: seq<K>)
    ensures SumCounts([], ks) == 0
  {
    if |ks| > 0 {
      SumCountsOfNothing(ks[..|ks| - 1]);
    }
  }

  /**
   * Grouping is a partition: when every key of `xs` is listed exactly once in
   * `ks`, the per-key counts add up to the length of `xs`.
   */
  lemma {:induction false} CountsPartition<K>(xs: seq<K>, ks: seq<K>)
    requires NoDup(ks)
    requires forall x :: x in xs ==> x in ks
    ensures SumCounts(xs, ks) == |xs|
  {
    if |xs| == 0 {
      SumCountsOfNothing(ks);
    } else {
      var p := xs[..|xs| - 1];
      var x := xs[|xs| - 1];
      assert xs == p + [x];
      CountsPartition(p, ks);
      SumCountsSnoc(p, x, ks);
      CountInNoDup(ks, x);
    }
  }

  /** Sum of the count column of a (key, count) table. */
  function SumSeconds<K>(rows: seq<(K, nat)>): nat
  {
    if |rows| == 0 then 0 else SumSeconds(rows[..|rows| - 1]) + rows[|rows| - 1].1
  }

  /** Every row of `rows` holds its key's count in `xs`. */
  predicate CountsOf<K(==)>(xs: seq<K>, rows: seq<(K, nat)>)
  {
    forall i :: 0 <= i < |rows| ==> rows[i].1 == Count(xs, rows[i].0)
  }

  lemma {:induction false} SumSecondsIsSumCounts<K>(xs: seq<K>, rows: seq<(K, nat)>)
    requires CountsOf(xs, rows)
    ensures SumSeconds(rows) == SumCounts(xs, Firsts(rows))
  {
    if |rows| > 0 {
      var p := rows[..|rows| - 1];
      assert Firsts(rows)[..|rows| - 1] == Firsts(p);
      SumSecondsIsSumCounts(xs, p);
    }
  }

  /**
   * Facts about any table that holds each key's count, lists each row once
   * and covers every key of `xs`: the keys are listed once, each count is
   * positive, and the counts add up to `|xs|`.
   */
  lemma CountTableFacts<K>(xs: seq<K>, rows: seq<(K, nat)>)
    requires CountsOf(xs, rows)
    requires NoDup(rows)
    requires forall i :: 0 <= i < |rows| ==> rows[i].0 in xs
    requires forall k :: k in xs ==> k in Firsts(rows)
    ensures NoDup(Firsts(rows))
    ensures forall i :: 0 <= i < |rows| ==> rows[i].1 >= 1
    ensures SumSeconds(rows) == |xs|
  {
    var ks := Firsts(rows);
    forall i, j | 0 <= i < j < |ks|
      ensures ks[i] != ks[j]
    {
    }
    SumSecondsIsSumCounts(xs, rows);
    CountsPartition(xs, ks);
  }

  /**
   * `groupby(key).size()`: each distinct key of `xs` with its number of
   * occurrences, one row per key.
   */
  function GroupSizes<K(==,!new)>(xs: seq<K>): (rows: seq<(K, nat)>)
    ensures CountsOf(xs, rows)
    ensures NoDup(rows)
    ensures forall i :: 0 <= i < |rows| ==> rows[i].0 in xs
    ensures forall k :: k in xs ==> k in Firsts(rows)
  {
    var ks := Distinct(xs);
    var rows := seq(|ks|, i requires 0 <= i < |ks| => (ks[i], Count(xs, ks[i])));
    assert forall k :: k in xs ==> k in Firsts(rows) by {
      forall k | k in xs
        ensures k in Firsts(rows)
      {
        var i :| 0 <= i < |ks| && ks[i] == k;
        assert Firsts(rows)[i] == k;
      }
    }
    rows
  }

  /** A count table's count column, as a sort key. */
  function Frequency<K>(row: (K, nat)): int
  {
    row.1
  }

  /**
   * `value_counts()`: each distinct key of `xs` with its number of
   * occurrences, most frequent first (equal counts in no promised order).
   */
  function ValueCounts<K(==,!new)>(xs: seq<K>): (rows: seq<(K, nat)>)
    ensures forall i :: 0 <= i < |rows| ==> rows[i].1 == Count(xs, rows[i].0) && rows[i].1 >= 1
    ensures forall k :: k in xs <==> k in Firsts(rows)
    ensures NoDup(Firsts(rows))
    ensures forall i, j :: 0 <= i < j < |rows| ==> rows[i].1 >= rows[j].1
    ensures SumSeconds(rows) == |xs|
  {
    var groups := GroupSizes(xs);
    var rows := SortDesc(groups, Frequency);
    PermutedCountTable(xs, groups, rows);
    rows
  }

  /** A permutation of a count table is a count table with the same keys. */
  lemma PermutedCountTable<K>(xs: seq<K>, groups: seq<(K, nat)>, rows: seq<(K, nat)>)
    requires CountsOf(xs, groups) && NoDup(groups)
    requires forall i :: 0 <= i < |groups| ==> groups[i].0 in xs
    requires forall k :: k in xs ==> k in Firsts(groups)
    requires multiset(rows) == multiset(groups) && NoDup(rows)
    ensures CountsOf(xs, rows)
    ensures forall i :: 0 <= i < |rows| ==> rows[i].0 in xs
    ensures forall k :: k in xs <==> k in Firsts(rows)
    ensures NoDup(Firsts(rows))
    ensures forall i :: 0 <= i < |rows| ==> rows[i].1 >= 1
    ensures SumSeconds(rows) == |xs|
  {
    PermutedCounts(xs, groups, rows);
    PermutedCovers(xs, groups, rows);
    CountTableFacts(xs, rows);
    forall k | k in Firsts(rows)
      ensures k in xs
    {
      var i :| 0 <= i < |rows| && Firsts(rows)[i] == k;
    }
  }

  /** A permutation of rows holding their keys' counts holds them too. */
  lemma PermutedCounts<K>(xs: seq<K>, groups: seq<(K, nat)>, rows: seq<(K, nat)>)
    requires CountsOf(xs, groups)
    requires forall i :: 0 <= i < |groups| ==> groups[i].0 in xs
    requires multiset(rows) == multiset(groups)
    ensures CountsOf(xs, rows)
    ensures forall i :: 0 <= i < |rows| ==> rows[i].0 in xs
  {
    forall i | 0 <= i < |rows|
      ensures rows[i].1 == Count(xs, rows[i].0) && rows[i].0 in xs
    {
      assert rows[i] in multiset(groups);
      var j :| 0 <= j < |groups| && groups[j] == rows[i];
    }
  }

  /** A permutation of rows covering every key of `xs` covers them too. */
  lemma PermutedCovers<K>(xs: seq<K>, groups: seq<(K, nat)>, rows: seq<(K, nat)>)
    requires forall k :: k in xs ==> k in Firsts(groups)
    requires multiset(rows) == multiset(groups)
    ensures forall k :: k in xs ==> k in Firsts(rows)
  {
    forall k | k in xs
      ensures k in Firsts(rows)
    {
      var j :| 0 <= j < |groups| && Firsts(groups)[j] == k;
      assert groups[j] in multiset(rows);
      var i :| 0 <= i < |rows| && rows[i] == groups[j];
      assert Firsts(rows)[i] == k;
    }
  }
}
