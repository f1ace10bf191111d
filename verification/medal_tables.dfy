/**
 * Per-country medal tables: the top-ten countries bar chart over the whole
 * table, and the swimming and cross-country skiing medal tables over one
 * sport. Each groups the medal-winning records by (NOC, Medal), spreads the
 * counts into Gold/Silver/Bronze columns, totals them and sorts by the total.
 */
module MedalTables {
  import opened Options
  import opened Seqs
  import opened Sorting
  import opened Tally
  import opened Athletes

  const Swimming := "Swimming"
  const CrossCountrySkiing := "Cross Country Skiing"

  /** (NOC, Medal) of every record that won a medal, in table order. */
  function MedalKeys(rs: seq<Record>): seq<(string, Medal)>
  {
    if |rs| == 0 then []
    else
      var r := rs[|rs| - 1];
      match r.medal
      case Some(m) => MedalKeys(rs[..|rs| - 1]) + [(r.noc, m)]
      case None => MedalKeys(rs[..|rs| - 1])
  }

  /** Number of records of `noc` that carry a medal. */
  function MedalsWon(rs: seq<Record>, noc: string): nat
  {
    if |rs| == 0 then 0
    else
      var r := rs[|rs| - 1];
      MedalsWon(rs[..|rs| - 1], noc) + (if r.noc == noc && r.medal.Some? then 1 else 0)
  }

  /** Counting (NOC, Medal) keys by NOC counts each NOC's medal-winning records. */
  lemma {:induction false} MedalKeysCountMedalsWon(rs: seq<Record>, noc: string)
    ensures Count(Firsts(MedalKeys(rs)), noc) == MedalsWon(rs, noc)
  {
    if |rs| > 0 {
      var p := rs[..|rs| - 1];
      var r := rs[|rs| - 1];
      MedalKeysCountMedalsWon(p, noc);
      match r.medal
      case Some(m) =>
        assert Firsts(MedalKeys(rs)) == Firsts(MedalKeys(p)) + [r.noc];
        CountSnoc(Firsts(MedalKeys(p)), r.noc, noc);
      case None =>
    }
  }

  datatype CountryMedals = CountryMedals(noc: string, gold: nat, silver: nat, bronze: nat)

  /** The "Total Medals" column. */
  function Total(row: CountryMedals): int
  {
    row.gold + row.silver + row.bronze
  }

  /** Each medal column of `row` counts the records of its NOC with that medal. */
  predicate Tallied(rs: seq<Record>, row: CountryMedals)
  {
    var keys := MedalKeys(rs);
    && row.gold == Count(keys, (row.noc, Gold))
    && row.silver == Count(keys, (row.noc, Silver))
    && row.bronze == Count(keys, (row.noc, Bronze))
  }

  function Nocs(rows: seq<CountryMedals>): (nocs: seq<string>)
    ensures |nocs| == |rows|
    ensures forall i :: 0 <= i < |rows| ==> nocs[i] == rows[i].noc
  {
    seq(|rows|, i requires 0 <= i < |rows| => rows[i].noc)
  }

  /**
   * Rows that count `rs` correctly: every row is tallied from `rs`, its
   * total is its NOC's number of medal-winning records and at least one, and
   * no NOC has two rows.
   */
  predicate CountedRows(rs: seq<Record>, rows: seq<CountryMedals>)
  {
    && (forall i :: 0 <= i < |rows| ==>
          Tallied(rs, rows[i]) && Total(rows[i]) == MedalsWon(rs, rows[i].noc) && Total(rows[i]) >= 1)
    && NoDup(Nocs(rows))
  }

  /** The Gold/Silver/Bronze row of `noc`, read off the (NOC, Medal) keys. */
  function RowOf(keys: seq<(string, Medal)>, noc: string): CountryMedals
  {
    CountryMedals(noc, Count(keys, (noc, Gold)), Count(keys, (noc, Silver)), Count(keys, (noc, Bronze)))
  }

  /**
   * `groupby(["NOC", "Medal"]).size().unstack(fill_value=0)`: one row per
   * NOC that won at least one medal in `rs` (records without a medal fall out
   * of the grouping), a missing medal type counting 0.
   */
  function MedalTable(rs: seq<Record>): (table: seq<CountryMedals>)
    ensures CountedRows(rs, table)
    ensures forall noc :: noc in Nocs(table) <==> MedalsWon(rs, noc) > 0
  {
    var keys := MedalKeys(rs);
    var nocs := Distinct(Firsts(keys));
    var table := seq(|nocs|, i requires 0 <= i < |nocs| => RowOf(keys, nocs[i]));
    MedalTableFacts(rs, nocs, table);
    table
  }

  lemma MedalTableFacts(rs: seq<Record>, nocs: seq<string>, table: seq<CountryMedals>)
    requires nocs == Distinct(Firsts(MedalKeys(rs)))
    requires |table| == |nocs|
    requires forall i :: 0 <= i < |nocs| ==> table[i] == RowOf(MedalKeys(rs), nocs[i])
    ensures CountedRows(rs, table)
    ensures forall noc :: noc in Nocs(table) <==> MedalsWon(rs, noc) > 0
  {
    var keys := MedalKeys(rs);
    assert Nocs(table) == nocs;
    forall i | 0 <= i < |table|
      ensures Total(table[i]) == MedalsWon(rs, table[i].noc) && Total(table[i]) >= 1
    {
      MedalColumnsSum(keys, nocs[i]);
      MedalKeysCountMedalsWon(rs, nocs[i]);
    }
    forall noc
      ensures noc in nocs <==> MedalsWon(rs, noc) > 0
    {
      MedalKeysCountMedalsWon(rs, noc);
    }
  }

  /** Reordering counted rows keeps them counted, with the same NOCs. */
  lemma PermutedRows(rs: seq<Record>, table: seq<CountryMedals>, rows: seq<CountryMedals>)
    requires CountedRows(rs, table)
    requires multiset(rows) == multiset(table) && NoDup(rows)
    ensures CountedRows(rs, rows)
    ensures forall noc :: noc in Nocs(rows) <==> noc in Nocs(table)
  {
    forall i | 0 <= i < |rows|
      ensures Tallied(rs, rows[i]) && Total(rows[i]) == MedalsWon(rs, rows[i].noc) && Total(rows[i]) >= 1
      ensures rows[i].noc in Nocs(table)
    {
      assert rows[i] in multiset(table);
      var j :| 0 <= j < |table| && table[j] == rows[i];
      assert Nocs(table)[j] == rows[i].noc;
    }
    forall noc | noc in Nocs(table)
      ensures noc in Nocs(rows)
    {
      var j :| 0 <= j < |table| && Nocs(table)[j] == noc;
      assert table[j] in multiset(rows);
      var i :| 0 <= i < |rows| && rows[i] == table[j];
      assert Nocs(rows)[i] == noc;
    }
    TalliedRowsDistinctNocs(rs, rows);
  }

  /** Tallied rows are determined by their NOC, so distinct rows have distinct NOCs. */
  lemma TalliedRowsDistinctNocs(rs: seq<Record>, rows: seq<CountryMedals>)
    requires forall i :: 0 <= i < |rows| ==> Tallied(rs, rows[i])
    requires NoDup(rows)
    ensures NoDup(Nocs(rows))
  {
    forall i, j | 0 <= i < j < |rows|
      ensures Nocs(rows)[i] != Nocs(rows)[j]
    {
    }
  }

  /** Sorting the medal table by descending total keeps it counted. */
  lemma SortedTable(rs: seq<Record>, table: seq<CountryMedals>)
    requires CountedRows(rs, table)
    ensures CountedRows(rs, SortDesc(table, Total))
    ensures forall noc :: noc in Nocs(SortDesc(table, Total)) <==> noc in Nocs(table)
  {
    forall i, j | 0 <= i < j < |table|
      ensures table[i] != table[j]
    {
      assert Nocs(table)[i] != Nocs(table)[j];
    }
    PermutedRows(rs, table, SortDesc(table, Total));
  }

  /** A prefix of counted rows is counted. */
  lemma TakeCounted(rs: seq<Record>, rows: seq<CountryMedals>, n: nat)
    requires CountedRows(rs, rows)
    ensures CountedRows(rs, Take(rows, n))
  {
    assert Nocs(Take(rows, n)) == Nocs(rows)[..|Take(rows, n)|];
  }

  /** The first `n` rows by descending total are counted, ordered and at most `n`. */
  lemma RankedTop(rs: seq<Record>, table: seq<CountryMedals>, n: nat)
    requires CountedRows(rs, table)
    ensures |Take(SortDesc(table, Total), n)| <= n
    ensures CountedRows(rs, Take(SortDesc(table, Total), n))
    ensures NonIncreasing(Take(SortDesc(table, Total), n), Total)
  {
    SortedTable(rs, table);
    TakeCounted(rs, SortDesc(table, Total), n);
    TakeNonIncreasing(SortDesc(table, Total), Total, n);
  }

  /**
   * After sorting counted rows by total and keeping the first `n`, a NOC of
   * the table that was cut off means `n` rows were kept, each with at least
   * its total.
   */
  lemma RankedKeepsLargest(rs: seq<Record>, table: seq<CountryMedals>, n: nat, noc: string)
    requires CountedRows(rs, table)
    requires noc in Nocs(table)
    requires noc !in Nocs(Take(SortDesc(table, Total), n))
    ensures |Take(SortDesc(table, Total), n)| == n
    ensures forall i :: 0 <= i < n ==> Total(Take(SortDesc(table, Total), n)[i]) >= MedalsWon(rs, noc)
  {
    var top := Take(SortDesc(table, Total), n);
    var j :| 0 <= j < |table| && Nocs(table)[j] == noc;
    var row := table[j];
    assert Total(row) == MedalsWon(rs, noc);
    forall i | 0 <= i < |top|
      ensures top[i] != row
    {
      assert Nocs(top)[i] == top[i].noc;
    }
    CutOffRow(table, n, row);
  }

  /** A row of `table` that `head(n)` cut off after the descending sort is beaten by all `n` kept rows. */
  lemma CutOffRow(table: seq<CountryMedals>, n: nat, row: CountryMedals)
    requires row in table
    requires row !in Take(SortDesc(table, Total), n)
    ensures |Take(SortDesc(table, Total), n)| == n
    ensures forall i :: 0 <= i < n ==> Total(Take(SortDesc(table, Total), n)[i]) >= Total(row)
  {
    var sorted := SortDesc(table, Total);
    var top := Take(sorted, n);
    assert row in multiset(table);
    assert row in sorted;
    TakeKeepsLargest(sorted, Total, n, row);
    forall i | 0 <= i < n
      ensures Total(top[i]) >= Total(row)
    {
      assert top[i] in top;
    }
  }

  /** `sum(axis=1).reset_index(name="Total Medals")`: each row's NOC and total. */
  function Totals(rows: seq<CountryMedals>): (totals: seq<(string, nat)>)
    ensures |totals| == |rows|
    ensures forall i :: 0 <= i < |rows| ==> totals[i].1 == rows[i].gold + rows[i].silver + rows[i].bronze
    ensures Firsts(totals) == Nocs(rows)
  {
    seq(|rows|, i requires 0 <= i < |rows| => (rows[i].noc, Total(rows[i])))
  }

  /**
   * The top-ten countries chart: medal totals per NOC, largest first, at most
   * ten rows; each total is that NOC's number of medal-winning records.
   */
  function TopTenCountries(rs: seq<Record>): (top: seq<(string, nat)>)
    ensures |top| <= 10
    ensures forall i :: 0 <= i < |top| ==> top[i].1 == MedalsWon(rs, top[i].0) && top[i].1 >= 1
    ensures forall i, j :: 0 <= i < j < |top| ==> top[i].1 >= top[j].1
    ensures NoDup(Firsts(top))
  {
    RankedTop(rs, MedalTable(rs), 10);
    Totals(Take(SortDesc(MedalTable(rs), Total), 10))
  }

  /**
   * The top ten really are the largest: a NOC with medals that is left out
   * means ten rows were kept, each with at least its total.
   */
  lemma TopTenAreTheLargest(rs: seq<Record>, noc: string)
    requires MedalsWon(rs, noc) > 0
    ensures || noc in Firsts(TopTenCountries(rs))
            || (&& |TopTenCountries(rs)| == 10
                && forall i :: 0 <= i < 10 ==> TopTenCountries(rs)[i].1 >= MedalsWon(rs, noc))
  {
    if noc !in Firsts(TopTenCountries(rs)) {
      RankedKeepsLargest(rs, MedalTable(rs), 10, noc);
    }
  }

  /** `medals_swimming[... .sum(axis=1) > 0]`: the rows with at least one medal. */
  function WithMedals(rows: seq<CountryMedals>): (won: seq<CountryMedals>)
    ensures forall i :: 0 <= i < |won| ==> Total(won[i]) > 0
    ensures forall row :: row in won <==> row in rows && Total(row) > 0
    ensures (forall i :: 0 <= i < |rows| ==> Total(rows[i]) > 0) ==> won == rows
  {
    if |rows| == 0 then []
    else
      var p := rows[..|rows| - 1];
      var row := rows[|rows| - 1];
      assert rows == p + [row];
      if Total(row) > 0 then WithMedals(p) + [row] else WithMedals(p)
  }

  /**
   * The swimming filter removes nothing: a NOC only gets a row by winning a
   * medal, so every row of the medal table already has a positive total.
   */
  lemma WithMedalsRemovesNothing(rs: seq<Record>)
    ensures WithMedals(MedalTable(rs)) == MedalTable(rs)
  {
  }

  /**
   * The swimming medal table: NOCs with a swimming medal, largest total
   * first, at most twenty rows.
   */
  function SwimmingMedals(rs: seq<Record>): (top: seq<CountryMedals>)
    ensures |top| <= 20
    ensures CountedRows(SportRecords(rs, Swimming), top)
    ensures forall i, j :: 0 <= i < j < |top| ==> Total(top[i]) >= Total(top[j])
  {
    var swimmers := SportRecords(rs, Swimming);
    WithMedalsRemovesNothing(swimmers);
    RankedTop(swimmers, MedalTable(swimmers), 20);
    Take(SortDesc(WithMedals(MedalTable(swimmers)), Total), 20)
  }

  /**
   * The top twenty really are the largest: a NOC with a swimming medal that
   * is left out means twenty rows were kept, each with at least its total.
   */
  lemma SwimmingTopTwentyAreTheLargest(rs: seq<Record>, noc: string)
    requires MedalsWon(SportRecords(rs, Swimming), noc) > 0
    ensures || noc in Nocs(SwimmingMedals(rs))
            || (&& |SwimmingMedals(rs)| == 20
                && forall i :: 0 <= i < 20 ==>
                     Total(SwimmingMedals(rs)[i]) >= MedalsWon(SportRecords(rs, Swimming), noc))
  {
    if noc !in Nocs(SwimmingMedals(rs)) {
      var swimmers := SportRecords(rs, Swimming);
      WithMedalsRemovesNothing(swimmers);
      RankedKeepsLargest(swimmers, MedalTable(swimmers), 20, noc);
    }
  }

  /**
   * The cross-country skiing medal table: every NOC with a cross-country
   * medal, largest total first, not truncated.
   */
  function CrossCountryMedals(rs: seq<Record>): (ranked: seq<CountryMedals>)
    ensures multiset(ranked) == multiset(MedalTable(SportRecords(rs, CrossCountrySkiing)))
    ensures CountedRows(SportRecords(rs, CrossCountrySkiing), ranked)
    ensures forall noc :: noc in Nocs(ranked) <==> MedalsWon(SportRecords(rs, CrossCountrySkiing), noc) > 0
    ensures forall i, j :: 0 <= i < j < |ranked| ==> Total(ranked[i]) >= Total(ranked[j])
  {
    var skiers := SportRecords(rs, CrossCountrySkiing);
    var table := MedalTable(skiers);
    SortedTable(skiers, table);
    SortDesc(table, Total)
  }
}
