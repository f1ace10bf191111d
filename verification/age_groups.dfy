/**
 * Medal counts per age group and sex. Records without an Age are dropped,
 * ages are cut into the right-closed decade bins (10,20], …, (80,90], and
 * medals are counted per (Sex, Age Group, Medal). Because the Age Group is a
 * categorical grouped with `observed=False`, every sex × bin × medal
 * combination gets a row, zero counts included; only the Gold, Silver and
 * Bronze columns are kept, and melting them yields all Gold rows, then all
 * Silver rows, then all Bronze rows.
 */
module AgeGroups {
  import opened Options
  import opened Seqs
  import opened Tally
  import opened Order
  import opened Athletes

  /** Number of age bins. */
  const Bins := 8

  /** Lower edge of bin `b`; bin `b` holds the ages in (Lo(b), Lo(b) + 10]. */
  function Lo(b: nat): int
  {
    10 + 10 * b
  }

  /**
   * `pd.cut` with edges 10, 20, …, 90 and the default `right=True`: an age
   * falls in bin `b` exactly when Lo(b) < age <= Lo(b) + 10; ages of 10 or
   * less and above 90 fall in no bin.
   */
  function AgeBin(age: int): (bin: Option<nat>)
    ensures bin.Some? <==> 10 < age <= 90
    ensures forall b: nat :: b < Bins ==> (bin == Some(b) <==> Lo(b) < age <= Lo(b) + 10)
  {
    if 10 < age <= 90 then Some((age - 1) / 10 - 1) else None
  }

  function Digit(d: nat): char
    requires d < 10
  {
    "0123456789"[d]
  }

  function NatToString(n: nat): string
  {
    if n < 10 then [Digit(n)] else NatToString(n / 10) + [Digit(n % 10)]
  }

  /** The eight category names, lowest bin first. */
  const BinLabels: seq<string> :=
    ["10-19", "20-29", "30-39", "40-49", "50-59", "60-69", "70-79", "80-89"]

  /** The bin's category name `f'{i}-{i+9}'`, `i` its lower edge. */
  function BinLabel(b: nat): (name: string)
    requires b < Bins
    ensures name == BinLabels[b]
  {
    LabelOfBin(b);
    NatToString(Lo(b)) + "-" + NatToString(Lo(b) + 9)
  }

  lemma LabelOfBin(b: nat)
    requires b < Bins
    ensures NatToString(Lo(b)) + "-" + NatToString(Lo(b) + 9) == BinLabels[b]
  {
    if b == 0 { assert NatToString(10) == "10" && NatToString(19) == "19"; }
    else if b == 1 { assert NatToString(20) == "20" && NatToString(29) == "29"; }
    else if b == 2 { assert NatToString(30) == "30" && NatToString(39) == "39"; }
    else if b == 3 { assert NatToString(40) == "40" && NatToString(49) == "49"; }
    else if b == 4 { assert NatToString(50) == "50" && NatToString(59) == "59"; }
    else if b == 5 { assert NatToString(60) == "60" && NatToString(69) == "69"; }
    else if b == 6 { assert NatToString(70) == "70" && NatToString(79) == "79"; }
    else { assert NatToString(80) == "80" && NatToString(89) == "89"; }
  }

  /** Different bins have different category names. */
  lemma BinLabelsDistinct(b: nat, c: nat)
    requires b < Bins && c < Bins && b != c
    ensures BinLabel(b) != BinLabel(c)
  {
    assert BinLabel(b)[0] == Digit(b + 1) && BinLabel(c)[0] == Digit(c + 1);
  }

  /** The edges of the binning, including those a half-open reading would get wrong. */
  lemma AgeBinEdges()
    ensures AgeBin(10) == None && AgeBin(91) == None
    ensures AgeBin(11) == Some(0) && AgeBin(20) == Some(0) && AgeBin(21) == Some(1)
    ensures AgeBin(90) == Some(7)
    ensures BinLabel(0) == "10-19" && BinLabel(1) == "20-29" && BinLabel(7) == "80-89"
  {
  }

  /** (Sex, Age Group, Medal) of every record with an age in a bin and a medal. */
  function AgeKeys(rs: seq<Record>): seq<(string, string, Medal)>
  {
    if |rs| == 0 then []
    else
      var r := rs[|rs| - 1];
      var keys := AgeKeys(rs[..|rs| - 1]);
      if r.age.Some? && AgeBin(r.age.value).Some? && r.medal.Some?
      then keys + [(r.sex, BinLabel(AgeBin(r.age.value).value), r.medal.value)]
      else keys
  }

  /** The Sex of every record that has an Age: the sexes the grouping knows. */
  function AgedSexes(rs: seq<Record>): seq<string>
  {
    if |rs| == 0 then []
    else
      var r := rs[|rs| - 1];
      if r.age.Some? then AgedSexes(rs[..|rs| - 1]) + [r.sex] else AgedSexes(rs[..|rs| - 1])
  }

  lemma {:induction false} AgeKeysHaveAgedSexes(rs: seq<Record>)
    ensures forall k :: k in AgeKeys(rs) ==> k.0 in AgedSexes(rs)
  {
    if |rs| > 0 {
      AgeKeysHaveAgedSexes(rs[..|rs| - 1]);
    }
  }

  /** A record with a binned age and a medal contributes its key. */
  lemma {:induction false} AgeKeysContain(rs: seq<Record>, r: Record)
    requires r in rs
    requires r.age.Some? && AgeBin(r.age.value).Some? && r.medal.Some?
    ensures (r.sex, BinLabel(AgeBin(r.age.value).value), r.medal.value) in AgeKeys(rs)
    ensures r.sex in AgedSexes(rs)
  {
    var p := rs[..|rs| - 1];
    assert rs == p + [rs[|rs| - 1]];
    if rs[|rs| - 1] != r {
      AgeKeysContain(p, r);
    }
  }

  datatype AgeMedalRow = AgeMedalRow(sex: string, group: string, medal: Medal, count: nat)

  /** The row of one (Sex, Age Group, Medal) combination. */
  function RowFor(keys: seq<(string, string, Medal)>, sex: string, b: nat, m: Medal): AgeMedalRow
    requires b < Bins
  {
    AgeMedalRow(sex, BinLabel(b), m, Count(keys, (sex, BinLabel(b), m)))
  }

  /** The rows of one medal for one sex, over all eight bins. */
  function BinRows(keys: seq<(string, string, Medal)>, sex: string, m: Medal): (block: seq<AgeMedalRow>)
    ensures |block| == Bins
    ensures forall b :: 0 <= b < Bins ==> block[b] == RowFor(keys, sex, b, m)
  {
    seq(Bins, b requires 0 <= b < Bins => RowFor(keys, sex, b, m))
  }

  /** Every row is a row of medal `m` for one of `sexes`, holding its key's count. */
  predicate BlockCounts(keys: seq<(string, string, Medal)>, sexes: seq<string>, m: Medal, rows: seq<AgeMedalRow>)
  {
    forall row :: row in rows ==>
      row.medal == m && row.sex in sexes && row.count == Count(keys, (row.sex, row.group, row.medal))
  }

  /** Every sex of `sexes` has its row of medal `m` in every bin. */
  predicate BlockCovers(keys: seq<(string, string, Medal)>, sexes: seq<string>, m: Medal, rows: seq<AgeMedalRow>)
  {
    forall s, b: nat :: s in sexes && b < Bins ==> RowFor(keys, s, b, m) in rows
  }

  /** The rows of one medal for every sex in `sexes`, each over all eight bins. */
  function MedalBlock(keys: seq<(string, string, Medal)>, sexes: seq<string>, m: Medal): (rows: seq<AgeMedalRow>)
    ensures |rows| == Bins * |sexes|
    ensures forall row :: row in rows ==>
              row.medal == m && row.sex in sexes && row.count == Count(keys, (row.sex, row.group, row.medal))
    ensures forall s, b: nat :: s in sexes && b < Bins ==> RowFor(keys, s, b, m) in rows
    ensures forall i, b :: 0 <= i < |sexes| && 0 <= b < Bins ==> rows[i * Bins + b] == RowFor(keys, sexes[i], b, m)
  {
    if |sexes| == 0 then []
    else
      var block := BinRows(keys, sexes[0], m);
      var rest := MedalBlock(keys, sexes[1..], m);
      ConsBlockCounts(keys, sexes, m, block, rest);
      ConsBlockCovers(keys, sexes, m, block, rest);
      ConsBlockInOrder(keys, sexes, m, block, rest);
      block + rest
  }

  lemma ConsBlockCounts(keys: seq<(string, string, Medal)>, sexes: seq<string>, m: Medal,
                        block: seq<AgeMedalRow>, rest: seq<AgeMedalRow>)
    requires |sexes| > 0 && block == BinRows(keys, sexes[0], m)
    requires BlockCounts(keys, sexes[1..], m, rest)
    ensures BlockCounts(keys, sexes, m, block + rest)
  {
    forall row | row in block + rest
      ensures row.medal == m && row.sex in sexes && row.count == Count(keys, (row.sex, row.group, row.medal))
    {
      if row in block {
        var b :| 0 <= b < Bins && block[b] == row;
      } else {
        assert row in rest;
        assert row.sex in sexes[1..];
      }
    }
  }

  lemma ConsBlockCovers(keys: seq<(string, string, Medal)>, sexes: seq<string>, m: Medal,
                        block: seq<AgeMedalRow>, rest: seq<AgeMedalRow>)
    requires |sexes| > 0 && block == BinRows(keys, sexes[0], m)
    requires BlockCovers(keys, sexes[1..], m, rest)
    ensures BlockCovers(keys, sexes, m, block + rest)
  {
    forall s, b: nat | s in sexes && b < Bins
      ensures RowFor(keys, s, b, m) in block + rest
    {
      if s == sexes[0] {
        assert block[b] == RowFor(keys, s, b, m);
      } else {
        var i :| 0 <= i < |sexes| && sexes[i] == s;
        assert s == sexes[1..][i - 1];
        assert RowFor(keys, s, b, m) in rest;
      }
    }
  }

  lemma ConsBlockInOrder(keys: seq<(string, string, Medal)>, sexes: seq<string>, m: Medal,
                         block: seq<AgeMedalRow>, rest: seq<AgeMedalRow>)
    requires |sexes| > 0 && block == BinRows(keys, sexes[0], m)
    requires BlockInOrder(keys, sexes[1..], m, rest)
    ensures BlockInOrder(keys, sexes, m, block + rest)
  {
    var rows := block + rest;
    assert |rows| == Bins * |sexes|;
    assert rows[Bins..Bins + |rest|] == rest;
    forall i, b | 0 <= i < |sexes| && 0 <= b < Bins
      ensures rows[i * Bins + b] == RowFor(keys, sexes[i], b, m)
    {
      if i == 0 {
        assert rows[b] == block[b];
      } else {
        BlockRowAt(keys, sexes[1..], m, rest, rows, Bins, i - 1, b);
        assert i * Bins + b == Bins + ((i - 1) * Bins + b);
      }
    }
  }

  /** The medal columns kept, in the order `melt` emits them. */
  const MedalColumns: seq<Medal> := [Gold, Silver, Bronze]

  /** Position of the row for medal column `k`, the `i`-th sex and bin `b`. */
  function RowIndex(k: nat, i: nat, b: nat, sexCount: nat): nat
  {
    (k * sexCount + i) * Bins + b
  }

  /** The Gold block, then the Silver block, then the Bronze block. */
  function MedalBlocks(keys: seq<(string, string, Medal)>, sexes: seq<string>): (rows: seq<AgeMedalRow>)
    ensures |rows| == 3 * Bins * |sexes|
    ensures forall row :: row in rows ==>
              row.sex in sexes && row.count == Count(keys, (row.sex, row.group, row.medal))
    ensures forall s, b: nat, m :: s in sexes && b < Bins ==> RowFor(keys, s, b, m) in rows
    ensures forall k: nat, i: nat, b: nat :: k < 3 && i < |sexes| && b < Bins ==>
              RowIndex(k, i, b, |sexes|) < |rows| &&
              rows[RowIndex(k, i, b, |sexes|)] == RowFor(keys, sexes[i], b, MedalColumns[k])
  {
    var gold := MedalBlock(keys, sexes, Gold);
    var silver := MedalBlock(keys, sexes, Silver);
    var bronze := MedalBlock(keys, sexes, Bronze);
    ConcatBlocks(keys, sexes, gold, silver, bronze);
    BlocksInOrder(keys, sexes, gold, silver, bronze);
    gold + silver + bronze
  }

  /** A block of `Bins` rows per sex for medal `m`, sexes in the order of `sexes`. */
  predicate BlockInOrder(keys: seq<(string, string, Medal)>, sexes: seq<string>, m: Medal, block: seq<AgeMedalRow>)
  {
    && |block| == Bins * |sexes|
    && forall i, b :: 0 <= i < |sexes| && 0 <= b < Bins ==> block[i * Bins + b] == RowFor(keys, sexes[i], b, m)
  }

  lemma BlocksInOrder(keys: seq<(string, string, Medal)>, sexes: seq<string>,
                      gold: seq<AgeMedalRow>, silver: seq<AgeMedalRow>, bronze: seq<AgeMedalRow>)
    requires BlockInOrder(keys, sexes, Gold, gold)
    requires BlockInOrder(keys, sexes, Silver, silver)
    requires BlockInOrder(keys, sexes, Bronze, bronze)
    ensures forall k: nat, i: nat, b: nat :: k < 3 && i < |sexes| && b < Bins ==>
              RowIndex(k, i, b, |sexes|) < |gold + silver + bronze| &&
              (gold + silver + bronze)[RowIndex(k, i, b, |sexes|)] == RowFor(keys, sexes[i], b, MedalColumns[k])
  {
    var rows := gold + silver + bronze;
    var n := |sexes|;
    assert rows[0..Bins * n] == gold;
    assert rows[Bins * n..2 * (Bins * n)] == silver;
    assert rows[2 * (Bins * n)..3 * (Bins * n)] == bronze;
    MedalBlockAt(keys, sexes, 0, gold, rows);
    MedalBlockAt(keys, sexes, 1, silver, rows);
    MedalBlockAt(keys, sexes, 2, bronze, rows);
  }

  /** The block of medal column `k`, laid into `rows` as the `k`-th block, puts each row at its `RowIndex`. */
  lemma MedalBlockAt(keys: seq<(string, string, Medal)>, sexes: seq<string>, k: nat,
                     block: seq<AgeMedalRow>, rows: seq<AgeMedalRow>)
    requires k < 3 && BlockInOrder(keys, sexes, MedalColumns[k], block)
    requires |rows| == 3 * (Bins * |sexes|)
    requires rows[k * (Bins * |sexes|)..(k + 1) * (Bins * |sexes|)] == block
    ensures forall i: nat, b: nat :: i < |sexes| && b < Bins ==>
              RowIndex(k, i, b, |sexes|) < |rows| &&
              rows[RowIndex(k, i, b, |sexes|)] == RowFor(keys, sexes[i], b, MedalColumns[k])
  {
    var n := |sexes|;
    forall i: nat, b: nat | i < n && b < Bins
      ensures RowIndex(k, i, b, n) < |rows| && rows[RowIndex(k, i, b, n)] == RowFor(keys, sexes[i], b, MedalColumns[k])
    {
      RowIndexSplit(k, i, b, n);
      BlockRowAt(keys, sexes, MedalColumns[k], block, rows, k * (Bins * n), i, b);
    }
  }

  /** A block laid into `rows` at `start` puts the row of sex `i` and bin `b` at `start + i * Bins + b`. */
  lemma BlockRowAt(keys: seq<(string, string, Medal)>, sexes: seq<string>, m: Medal,
                   block: seq<AgeMedalRow>, rows: seq<AgeMedalRow>, start: nat, i: nat, b: nat)
    requires BlockInOrder(keys, sexes, m, block)
    requires start + |block| <= |rows| && rows[start..start + |block|] == block
    requires i < |sexes| && b < Bins && i * Bins + b < |block|
    ensures rows[start + (i * Bins + b)] == RowFor(keys, sexes[i], b, m)
  {
    assert rows[start..start + |block|][i * Bins + b] == block[i * Bins + b];
  }

  /** Row index arithmetic: `k` whole medal blocks, then `i` sexes of `Bins` rows. */
  lemma RowIndexSplit(k: nat, i: nat, b: nat, n: nat)
    requires i < n && b < Bins
    ensures i * Bins + b < Bins * n
    ensures RowIndex(k, i, b, n) == k * (Bins * n) + (i * Bins + b)
  {
    assert (k * n + i) * Bins == k * (Bins * n) + i * Bins;
    assert i * Bins + Bins <= n * Bins;
  }


  lemma ConcatBlocks(keys: seq<(string, string, Medal)>, sexes: seq<string>,
                     gold: seq<AgeMedalRow>, silver: seq<AgeMedalRow>, bronze: seq<AgeMedalRow>)
    requires gold == MedalBlock(keys, sexes, Gold)
    requires silver == MedalBlock(keys, sexes, Silver)
    requires bronze == MedalBlock(keys, sexes, Bronze)
    ensures forall row :: row in gold + silver + bronze ==>
              row.sex in sexes && row.count == Count(keys, (row.sex, row.group, row.medal))
    ensures forall s, b: nat, m :: s in sexes && b < Bins ==> RowFor(keys, s, b, m) in gold + silver + bronze
  {
    var rows := gold + silver + bronze;
    forall row | row in rows
      ensures row.sex in sexes && row.count == Count(keys, (row.sex, row.group, row.medal))
    {
      assert row in gold || row in silver || row in bronze;
    }
    forall s, b: nat, m | s in sexes && b < Bins
      ensures RowFor(keys, s, b, m) in rows
    {
      var row := RowFor(keys, s, b, m);
      match m
      case Gold => assert row in gold;
      case Silver => assert row in silver;
      case Bronze => assert row in bronze;
    }
  }

  /**
   * The chart's long table: for Gold, Silver and Bronze in turn, one row per
   * sex (ascending) and age bin, holding the number of records of that sex,
   * bin and medal.
   */
  function AgeGroupMedals(rs: seq<Record>): (rows: seq<AgeMedalRow>)
    ensures |rows| == 3 * Bins * |Elems(AgedSexes(rs))|
    ensures var sexes := SortedStrings(AgedSexes(rs));
            forall k: nat, i: nat, b: nat :: k < 3 && i < |sexes| && b < Bins ==>
              RowIndex(k, i, b, |sexes|) < |rows| &&
              rows[RowIndex(k, i, b, |sexes|)] == RowFor(AgeKeys(rs), sexes[i], b, MedalColumns[k])
    ensures forall row :: row in rows ==>
              row.sex in AgedSexes(rs) && row.count == Count(AgeKeys(rs), (row.sex, row.group, row.medal))
    ensures forall s, b: nat, m :: s in AgedSexes(rs) && b < Bins ==> RowFor(AgeKeys(rs), s, b, m) in rows
  {
    var sexes := SortedStrings(AgedSexes(rs));
    SortedSexesCount(AgedSexes(rs));
    MedalBlocks(AgeKeys(rs), sexes)
  }

  lemma SortedSexesCount(xs: seq<string>)
    ensures |SortedStrings(xs)| == |Elems(xs)|
  {
    var sexes := SortedStrings(xs);
    StringsAscendingNoDup(sexes);
    NoDupCardinality(sexes);
    assert Elems(sexes) == Elems(xs);
  }

  /**
   * A record with a binned age and a medal is counted: the chart has a row
   * for its sex, age group and medal whose count is at least one.
   */
  lemma MedalWinnerCounted(rs: seq<Record>, r: Record)
    requires r in rs
    requires r.age.Some? && AgeBin(r.age.value).Some? && r.medal.Some?
    ensures exists row :: row in AgeGroupMedals(rs) && row.sex == r.sex && row.group == BinLabel(AgeBin(r.age.value).value)
                          && row.medal == r.medal.value && row.count >= 1
  {
    AgeKeysContain(rs, r);
    var row := RowFor(AgeKeys(rs), r.sex, AgeBin(r.age.value).value, r.medal.value);
    assert row in AgeGroupMedals(rs);
  }

  /**
   * A record without a medal, or whose age falls in no bin, adds to no
   * count; one without an Age leaves the chart unchanged altogether.
   */
  lemma UnbinnedRecordIgnored(rs: seq<Record>, r: Record)
    requires r.age.None? || AgeBin(r.age.value).None? || r.medal.None?
    ensures AgeKeys(rs + [r]) == AgeKeys(rs)
    ensures forall row :: row in AgeGroupMedals(rs + [r]) ==>
              row.count == Count(AgeKeys(rs), (row.sex, row.group, row.medal))
    ensures r.age.None? ==> AgeGroupMedals(rs + [r]) == AgeGroupMedals(rs)
  {
    assert (rs + [r])[..|rs|] == rs;
  }

  /** Only the ages the bins cover are counted: each counted key has a bin's name. */
  lemma {:induction false} AgeKeysAreBinned(rs: seq<Record>)
    ensures forall k :: k in AgeKeys(rs) ==> exists b: nat :: b < Bins && k.1 == BinLabel(b)
  {
    if |rs| > 0 {
      AgeKeysAreBinned(rs[..|rs| - 1]);
    }
  }
}
