/**
 * The athlete-events table: one record per athlete per event per Games.
 * The table is loaded once and only ever read; every chart builder filters,
 * groups and counts it afresh.
 */
module Athletes {
  import opened Options
  import opened Seqs
  import opened Tally

  datatype Medal = Gold | Silver | Bronze

  datatype Record = Record(
    id: int,
    sex: string,
    age: Option<int>,
    noc: string,
    season: string,
    year: int,
    sport: string,
    medal: Option<Medal>)

  /** Australia, including the historical Australasia team (NOC "ANZ"). */
  predicate IsAustralian(r: Record)
  {
    r.noc == "AUS" || r.noc == "ANZ"
  }

  /** The records of one sport, in table order. */
  function SportRecords(rs: seq<Record>, sport: string): (sel: seq<Record>)
    ensures forall r :: r in sel <==> r in rs && r.sport == sport
    ensures forall r :: Count(sel, r) == if r.sport == sport then Count(rs, r) else 0
  {
    if |rs| == 0 then []
    else
      var p := rs[..|rs| - 1];
      var r := rs[|rs| - 1];
      assert rs == p + [r];
      var q := SportRecords(p, sport);
      if r.sport == sport then
        assert forall x :: Count(q + [r], x) == Count(q, x) + (if r == x then 1 else 0) by {
          forall x { CountSnoc(q, r, x); }
        }
        q + [r]
      else q
  }

  /**
   * Reshaping (group, medal) counts into Gold/Silver/Bronze columns loses
   * nothing: the three columns of a group add up to the number of its keys.
   */
  lemma {:induction false} MedalColumnsSum<A>(keys: seq<(A, Medal)>, a: A)
    ensures Count(keys, (a, Gold)) + Count(keys, (a, Silver)) + Count(keys, (a, Bronze))
            == Count(Firsts(keys), a)
  {
    if |keys| > 0 {
      var p := keys[..|keys| - 1];
      var x := keys[|keys| - 1];
      assert keys == p + [x];
      FirstsSnoc(p, x);
      MedalColumnsSum(p, a);
      CountSnoc(p, x, (a, Gold));
      CountSnoc(p, x, (a, Silver));
      CountSnoc(p, x, (a, Bronze));
      CountSnoc(Firsts(p), x.0, a);
      match x
      case (k, Gold) =>
      case (k, Silver) =>
      case (k, Bronze) =>
    }
  }
}
