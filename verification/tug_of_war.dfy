/**
 * The Tug-Of-War charts: medal rows per (NOC, Year, Medal) in year order,
 * and the number of histogram bins for the athletes' ages, one per whole
 * year between the youngest and the oldest.
 */
module TugOfWar {
  import opened Options
  import opened Seqs
  import opened Sorting
  import opened Tally
  import opened Athletes

  const TugOfWarSport := "Tug-Of-War"

  /** The grouping key of the Tug-Of-War medal table. */
  datatype TugKey = TugKey(noc: string, year: int, medal: Medal)

  /** (NOC, Year, Medal) of every Tug-Of-War record that won a medal. */
  function TugKeys(rs: seq<Record>): seq<TugKey>
  {
    if |rs| == 0 then []
    else
      var r := rs[|rs| - 1];
      if r.sport == TugOfWarSport && r.medal.Some?
      then TugKeys(rs[..|rs| - 1]) + [TugKey(r.noc, r.year, r.medal.value)]
      else TugKeys(rs[..|rs| - 1])
  }

  /** A record of the sport with a medal. */
  predicate TugMedalist(r: Record)
  {
    r.sport == TugOfWarSport && r.medal.Some?
  }

  /** A key is listed exactly when some Tug-Of-War record won that medal for that NOC and Year. */
  lemma {:induction false} TugKeysIff(rs: seq<Record>, k: TugKey)
    ensures k in TugKeys(rs) <==>
            exists r :: r in rs && TugMedalist(r) && TugKey(r.noc, r.year, r.medal.value) == k
  {
    if |rs| > 0 {
      var p := rs[..|rs| - 1];
      var r := rs[|rs| - 1];
      assert rs == p + [r];
      TugKeysIff(p, k);
      if k in TugKeys(rs) && k !in TugKeys(p) {
        assert TugMedalist(r) && TugKey(r.noc, r.year, r.medal.value) == k;
      }
      if exists x :: x in rs && TugMedalist(x) && TugKey(x.noc, x.year, x.medal.value) == k {
        var x :| x in rs && TugMedalist(x) && TugKey(x.noc, x.year, x.medal.value) == k;
        if x != r {
          assert x in p;
        }
      }
    }
  }

  datatype TugRow = TugRow(noc: string, year: int, medal: Medal, count: nat)

  function KeyOf(row: TugRow): TugKey
  {
    TugKey(row.noc, row.year, row.medal)
  }

  function RowKeys(rows: seq<TugRow>): (keys: seq<TugKey>)
    ensures |keys| == |rows|
    ensures forall i :: 0 <= i < |rows| ==> keys[i] == KeyOf(rows[i])
  {
    seq(|rows|, i requires 0 <= i < |rows| => KeyOf(rows[i]))
  }

  function RowOf(group: (TugKey, nat)): (row: TugRow)
    ensures KeyOf(row) == group.0 && row.count == group.1
  {
    TugRow(group.0.noc, group.0.year, group.0.medal, group.1)
  }

  /** A group's Year, as a sort key. */
  function GroupYear(group: (TugKey, nat)): int
  {
    group.0.year
  }

  function RowsOf(groups: seq<(TugKey, nat)>): (rows: seq<TugRow>)
    ensures |rows| == |groups|
    ensures forall i :: 0 <= i < |rows| ==> rows[i] == RowOf(groups[i])
    ensures RowKeys(rows) == Firsts(groups)
  {
    seq(|groups|, i requires 0 <= i < |groups| => RowOf(groups[i]))
  }

  /**
   * `groupby(['NOC', 'Year', 'Medal']).size().reset_index(name='Count')`
   * sorted by Year: one row per (NOC, Year, Medal) that occurs among the
   * Tug-Of-War medal records, with its number of records, years ascending
   * (rows of one year in no promised order).
   */
  function TugMedalRows(rs: seq<Record>): (rows: seq<TugRow>)
    ensures forall i :: 0 <= i < |rows| ==> rows[i].count == Count(TugKeys(rs), KeyOf(rows[i])) && rows[i].count >= 1
    ensures forall k :: k in RowKeys(rows) <==> k in TugKeys(rs)
    ensures NoDup(RowKeys(rows))
    ensures forall i, j :: 0 <= i < j < |rows| ==> rows[i].year <= rows[j].year
  {
    var keys := TugKeys(rs);
    var sorted := SortAsc(GroupSizes(keys), GroupYear);
    TugMedalRowsFacts(keys, sorted);
    RowsOf(sorted)
  }

  lemma TugMedalRowsFacts(keys: seq<TugKey>, sorted: seq<(TugKey, nat)>)
    requires sorted == SortAsc(GroupSizes(keys), GroupYear)
    ensures forall i :: 0 <= i < |sorted| ==> sorted[i].1 == Count(keys, sorted[i].0) && sorted[i].1 >= 1
    ensures forall k :: k in Firsts(sorted) <==> k in keys
    ensures NoDup(Firsts(sorted))
    ensures forall i, j :: 0 <= i < j < |sorted| ==> sorted[i].0.year <= sorted[j].0.year
  {
    var groups := GroupSizes(keys);
    PermutedCountTable(keys, groups, sorted);
    forall i, j | 0 <= i < j < |sorted|
      ensures sorted[i].0.year <= sorted[j].0.year
    {
      assert GroupYear(sorted[i]) <= GroupYear(sorted[j]);
    }
  }

  /** The Age of every Tug-Of-War record that has one. */
  function TugAges(rs: seq<Record>): seq<int>
  {
    if |rs| == 0 then []
    else
      var r := rs[|rs| - 1];
      if r.sport == TugOfWarSport && r.age.Some?
      then TugAges(rs[..|rs| - 1]) + [r.age.value]
      else TugAges(rs[..|rs| - 1])
  }

  /** An age is listed exactly when some Tug-Of-War record has it. */
  lemma {:induction false} TugAgesIff(rs: seq<Record>, a: int)
    ensures a in TugAges(rs) <==> exists r :: r in rs && r.sport == TugOfWarSport && r.age == Some(a)
  {
    if |rs| > 0 {
      var p := rs[..|rs| - 1];
      var r := rs[|rs| - 1];
      assert rs == p + [r];
      TugAgesIff(p, a);
      if a in TugAges(rs) && a !in TugAges(p) {
        assert r.sport == TugOfWarSport && r.age == Some(a);
      }
      if exists x :: x in rs && x.sport == TugOfWarSport && x.age == Some(a) {
        var x :| x in rs && x.sport == TugOfWarSport && x.age == Some(a);
        if x != r {
          assert x in p;
        }
      }
    }
  }

  function MinOf(xs: seq<int>): (m: int)
    requires |xs| > 0
    ensures m in xs
    ensures forall x :: x in xs ==> m <= x
  {
    if |xs| == 1 then xs[0]
    else
      var m := MinOf(xs[1..]);
      assert xs == [xs[0]] + xs[1..];
      if xs[0] <= m then xs[0] else m
  }

  function MaxOf(xs: seq<int>): (m: int)
    requires |xs| > 0
    ensures m in xs
    ensures forall x :: x in xs ==> x <= m
  {
    if |xs| == 1 then xs[0]
    else
      var m := MaxOf(xs[1..]);
      assert xs == [xs[0]] + xs[1..];
      if xs[0] >= m then xs[0] else m
  }

  /**
   * The table has a row for (NOC, Year, Medal) exactly when some Tug-Of-War
   * record won that medal for that NOC in that year.
   */
  lemma TugRowIffMedal(rs: seq<Record>, k: TugKey)
    ensures k in RowKeys(TugMedalRows(rs)) <==>
            exists r :: r in rs && TugMedalist(r) && TugKey(r.noc, r.year, r.medal.value) == k
  {
    TugKeysIff(rs, k);
  }

  /** `lo` and `hi` are ages that occur and bound every age in `ages`. */
  predicate Spans(ages: seq<int>, lo: int, hi: int)
  {
    lo in ages && hi in ages && forall a :: a in ages ==> lo <= a <= hi
  }

  /**
   * The histogram's `nbins`: max age − min age + 1 over the Tug-Of-War ages.
   * The count is the number of whole years from the youngest age to the
   * oldest, both attained. Without any age the source fails converting a
   * missing minimum to an integer; that case is None here.
   */
  function TugAgeBinCount(rs: seq<Record>): (nbins: Option<int>)
    ensures nbins.None? <==> |TugAges(rs)| == 0
    ensures nbins.Some? ==> nbins.value >= 1
    ensures nbins.Some? ==>
              exists lo, hi :: Spans(TugAges(rs), lo, hi) && nbins.value == hi - lo + 1
  {
    var ages := TugAges(rs);
    if |ages| == 0 then None
    else
      var lo := MinOf(ages);
      var hi := MaxOf(ages);
      assert Spans(ages, lo, hi);
      Some(hi - lo + 1)
  }

  /** Ages 20, 22 and 25 need six one-year bins. */
  lemma SixBinsForTwentyToTwentyFive()
    ensures TugAgeBinCount([
              Record(1, "M", Some(20), "GBR", "Summer", 1908, TugOfWarSport, None),
              Record(2, "M", Some(22), "GBR", "Summer", 1908, TugOfWarSport, Some(Gold)),
              Record(3, "M", Some(25), "SWE", "Summer", 1912, TugOfWarSport, Some(Gold))]) == Some(6)
  {
    var rs := [
      Record(1, "M", Some(20), "GBR", "Summer", 1908, TugOfWarSport, None),
      Record(2, "M", Some(22), "GBR", "Summer", 1908, TugOfWarSport, Some(Gold)),
      Record(3, "M", Some(25), "SWE", "Summer", 1912, TugOfWarSport, Some(Gold))];
    assert rs[..2][..1][..0] == [];
    assert TugAges(rs[..2][..1]) == [20];
    assert TugAges(rs[..2]) == [20, 22];
    assert TugAges(rs) == [20, 22, 25];
    assert MinOf([20, 22, 25]) == 20;
    assert MaxOf([20, 22, 25]) == 25;
  }
}
