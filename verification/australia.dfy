/**
 * The Australian charts. Both keep the records of NOC "AUS" or "ANZ" that
 * won a medal; one counts them per Sport, the other per (Season, Year)
 * spread into Gold/Silver/Bronze columns.
 */
module Australia {
  import opened Options
  import opened Seqs
  import opened Tally
  import opened Order
  import opened Athletes

  /** The Australian records that won a medal, in table order. */
  function AustralianMedals(rs: seq<Record>): (ms: seq<Record>)
    ensures forall r :: r in ms <==> r in rs && IsAustralian(r) && r.medal.Some?
    ensures forall r :: Count(ms, r) == if IsAustralian(r) && r.medal.Some? then Count(rs, r) else 0
  {
    if |rs| == 0 then []
    else
      var p := rs[..|rs| - 1];
      var r := rs[|rs| - 1];
      assert rs == p + [r];
      var q := AustralianMedals(p);
      if IsAustralian(r) && r.medal.Some? then
        assert forall x :: Count(q + [r], x) == Count(q, x) + (if r == x then 1 else 0) by {
          forall x { CountSnoc(q, r, x); }
        }
        q + [r]
      else q
  }

  function Sports(rs: seq<Record>): (sports: seq<string>)
    ensures |sports| == |rs|
    ensures forall i :: 0 <= i < |rs| ==> sports[i] == rs[i].sport
  {
    seq(|rs|, i requires 0 <= i < |rs| => rs[i].sport)
  }

  /**
   * Medals per sport for Australia (`value_counts()` of Sport): each sport
   * with its number of Australian medal records, most medals first; the
   * counts add up to the number of Australian medal records.
   */
  function MedalsPerSportAustralia(rs: seq<Record>): (counts: seq<(string, nat)>)
    ensures forall i :: 0 <= i < |counts| ==>
              counts[i].1 == Count(Sports(AustralianMedals(rs)), counts[i].0) && counts[i].1 >= 1
    ensures forall sport :: sport in Firsts(counts) <==> sport in Sports(AustralianMedals(rs))
    ensures NoDup(Firsts(counts))
    ensures forall i, j :: 0 <= i < j < |counts| ==> counts[i].1 >= counts[j].1
    ensures SumSeconds(counts) == |AustralianMedals(rs)|
  {
    ValueCounts(Sports(AustralianMedals(rs)))
  }

  /** ((Season, Year), Medal) of every Australian record that won a medal. */
  function GamesKeys(rs: seq<Record>): seq<((string, int), Medal)>
  {
    if |rs| == 0 then []
    else
      var r := rs[|rs| - 1];
      if IsAustralian(r) && r.medal.Some?
      then GamesKeys(rs[..|rs| - 1]) + [((r.season, r.year), r.medal.value)]
      else GamesKeys(rs[..|rs| - 1])
  }

  /** Every Australian medal record has its Games among the keys. */
  lemma {:induction false} GamesKeysContain(rs: seq<Record>, r: Record)
    requires r in rs && IsAustralian(r) && r.medal.Some?
    ensures ((r.season, r.year), r.medal.value) in GamesKeys(rs)
  {
    var p := rs[..|rs| - 1];
    assert rs == p + [rs[|rs| - 1]];
    if rs[|rs| - 1] != r {
      GamesKeysContain(p, r);
    }
  }

  /** Every key comes from an Australian medal record. */
  lemma {:induction false} GamesKeysFromRecords(rs: seq<Record>, k: ((string, int), Medal))
    requires k in GamesKeys(rs)
    ensures exists r :: r in rs && IsAustralian(r) && r.medal == Some(k.1) && (r.season, r.year) == k.0
  {
    var p := rs[..|rs| - 1];
    var r := rs[|rs| - 1];
    assert rs == p + [r];
    if k !in GamesKeys(p) {
      assert IsAustralian(r) && r.medal == Some(k.1) && (r.season, r.year) == k.0;
    } else {
      GamesKeysFromRecords(p, k);
    }
  }

  datatype GamesMedals = GamesMedals(season: string, year: int, gold: nat, silver: nat, bronze: nat)

  function GamesOf(row: GamesMedals): (string, int)
  {
    (row.season, row.year)
  }

  function GamesList(rows: seq<GamesMedals>): (games: seq<(string, int)>)
    ensures |games| == |rows|
    ensures forall i :: 0 <= i < |rows| ==> games[i] == GamesOf(rows[i])
  {
    seq(|rows|, i requires 0 <= i < |rows| => GamesOf(rows[i]))
  }

  function GamesRow(keys: seq<((string, int), Medal)>, g: (string, int)): GamesMedals
  {
    GamesMedals(g.0, g.1, Count(keys, (g, Gold)), Count(keys, (g, Silver)), Count(keys, (g, Bronze)))
  }

  /**
   * Australian medals per Games (`groupby(["Season", "Year", "Medal"])
   * .size().unstack(fill_value=0)`): one row per (Season, Year) with at least
   * one Australian medal, in ascending (Season, Year) order, each medal
   * column counting that Games' records of that medal, a missing type 0.
   */
  function AustralianMedalsPerYear(rs: seq<Record>): (rows: seq<GamesMedals>)
    ensures forall i, j :: 0 <= i < j < |rows| ==> GamesLess(GamesOf(rows[i]), GamesOf(rows[j]))
    ensures forall g :: g in GamesList(rows) <==> g in Firsts(GamesKeys(rs))
    ensures forall i :: 0 <= i < |rows| ==>
              && rows[i].gold == Count(GamesKeys(rs), (GamesOf(rows[i]), Gold))
              && rows[i].silver == Count(GamesKeys(rs), (GamesOf(rows[i]), Silver))
              && rows[i].bronze == Count(GamesKeys(rs), (GamesOf(rows[i]), Bronze))
    ensures forall i :: 0 <= i < |rows| ==> rows[i].gold + rows[i].silver + rows[i].bronze >= 1
    ensures NoDup(GamesList(rows))
  {
    var keys := GamesKeys(rs);
    var games := SortedGames(Firsts(keys));
    var rows := seq(|games|, i requires 0 <= i < |games| => GamesRow(keys, games[i]));
    assert GamesList(rows) == games;
    PerYearFacts(keys, games, rows);
    GamesAscendingNoDup(games);
    rows
  }

  lemma PerYearFacts(keys: seq<((string, int), Medal)>, games: seq<(string, int)>, rows: seq<GamesMedals>)
    requires forall g :: g in games ==> g in Firsts(keys)
    requires |rows| == |games|
    requires forall i :: 0 <= i < |games| ==> rows[i] == GamesRow(keys, games[i])
    ensures forall i :: 0 <= i < |rows| ==> rows[i].gold + rows[i].silver + rows[i].bronze >= 1
  {
    forall i | 0 <= i < |rows|
      ensures rows[i].gold + rows[i].silver + rows[i].bronze >= 1
    {
      assert games[i] in games;
      MedalColumnsSum(keys, games[i]);
    }
  }

  /** The number of Australian records that won a medal at Games `g`, counted straight off the table. */
  function GamesMedalsWon(rs: seq<Record>, g: (string, int)): nat
  {
    if |rs| == 0 then 0
    else
      var r := rs[|rs| - 1];
      GamesMedalsWon(rs[..|rs| - 1], g) + (if IsAustralian(r) && r.medal.Some? && (r.season, r.year) == g then 1 else 0)
  }

  /** Counting the ((Season, Year), Medal) keys by Games counts each Games' Australian medal records. */
  lemma {:induction false} GamesKeysCountMedalsWon(rs: seq<Record>, g: (string, int))
    ensures Count(Firsts(GamesKeys(rs)), g) == GamesMedalsWon(rs, g)
  {
    if |rs| > 0 {
      var p := rs[..|rs| - 1];
      var r := rs[|rs| - 1];
      GamesKeysCountMedalsWon(p, g);
      if IsAustralian(r) && r.medal.Some? {
        var k := ((r.season, r.year), r.medal.value);
        FirstsSnoc(GamesKeys(p), k);
        CountSnoc(Firsts(GamesKeys(p)), k.0, g);
      }
    }
  }

  /**
   * A Games gets a row exactly when some Australian record won a medal
   * there; the row's three columns add up to that Games' medal records.
   */
  lemma GamesRowIffMedal(rs: seq<Record>, season: string, year: int)
    ensures (season, year) in GamesList(AustralianMedalsPerYear(rs)) <==>
            exists r :: r in rs && IsAustralian(r) && r.medal.Some? && r.season == season && r.year == year
    ensures forall row :: row in AustralianMedalsPerYear(rs) && GamesOf(row) == (season, year) ==>
              row.gold + row.silver + row.bronze == GamesMedalsWon(rs, (season, year))
  {
    var rows := AustralianMedalsPerYear(rs);
    forall row | row in rows && GamesOf(row) == (season, year)
      ensures row.gold + row.silver + row.bronze == GamesMedalsWon(rs, (season, year))
    {
      var i :| 0 <= i < |rows| && rows[i] == row;
      MedalColumnsSum(GamesKeys(rs), (season, year));
      GamesKeysCountMedalsWon(rs, (season, year));
    }
    var keys := GamesKeys(rs);
    if (season, year) in Firsts(keys) {
      var i :| 0 <= i < |keys| && Firsts(keys)[i] == (season, year);
      assert keys[i] in keys;
      GamesKeysFromRecords(rs, keys[i]);
    }
    if exists r :: r in rs && IsAustralian(r) && r.medal.Some? && r.season == season && r.year == year {
      var r :| r in rs && IsAustralian(r) && r.medal.Some? && r.season == season && r.year == year;
      GamesKeysContain(rs, r);
      var i :| 0 <= i < |keys| && keys[i] == ((season, year), r.medal.value);
      assert Firsts(keys)[i] == (season, year);
    }
  }
}
