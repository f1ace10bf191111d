/**
 * The sex-distribution pie: one record per athlete (the first one listed
 * for each ID), counted by Sex, the code "F" shown as "Female" and every
 * other code as "Male".
 */
module SexSplit {
  import opened Options
  import opened Seqs
  import opened Tally
  import opened Athletes

  function Ids(rs: seq<Record>): (ids: seq<int>)
    ensures |ids| == |rs|
    ensures forall i :: 0 <= i < |rs| ==> ids[i] == rs[i].id
  {
    seq(|rs|, i requires 0 <= i < |rs| => rs[i].id)
  }

  function Sexes(rs: seq<Record>): (sexes: seq<string>)
    ensures |sexes| == |rs|
    ensures forall i :: 0 <= i < |rs| ==> sexes[i] == rs[i].sex
  {
    seq(|rs|, i requires 0 <= i < |rs| => rs[i].sex)
  }

  /** Position of the first record of athlete `id`, if the table has one. */
  function FirstIndex(rs: seq<Record>, id: int): (k: Option<nat>)
    ensures k.Some? ==> k.value < |rs| && rs[k.value].id == id
    ensures k.Some? ==> forall j :: 0 <= j < k.value ==> rs[j].id != id
    ensures k.None? <==> id !in Ids(rs)
  {
    if |rs| == 0 then None
    else if rs[0].id == id then Some(0)
    else
      assert rs == [rs[0]] + rs[1..];
      IdsCons(rs[0], rs[1..]);
      match FirstIndex(rs[1..], id)
      case None => None
      case Some(k) => Some(k + 1)
  }

  /** Every record of `u` is the first record of its athlete in `rs`. */
  predicate FirstOccurrences(rs: seq<Record>, u: seq<Record>)
  {
    forall i :: 0 <= i < |u| ==>
      FirstIndex(rs, u[i].id).Some? && rs[FirstIndex(rs, u[i].id).value] == u[i]
  }

  /** `u` holds exactly the IDs of `rs` outside `seen`. */
  ghost predicate UnseenIds(rs: seq<Record>, seen: set<int>, u: seq<Record>)
  {
    forall id :: id in Ids(u) <==> id in Ids(rs) && id !in seen
  }

  /**
   * `u` keeps the first record of every athlete of `rs` whose ID is not in
   * `seen`, once each, and nothing else.
   */
  ghost predicate KeepsFirsts(rs: seq<Record>, seen: set<int>, u: seq<Record>)
  {
    FirstOccurrences(rs, u) && NoDup(Ids(u)) && UnseenIds(rs, seen, u)
  }

  lemma IdsCons(r: Record, rs: seq<Record>)
    ensures Ids([r] + rs) == [r.id] + Ids(rs)
  {
  }

  /** Past a first record with another ID, the first position moves up by one. */
  lemma FirstIndexPastHead(rs: seq<Record>, x: Record)
    requires |rs| > 0 && rs[0].id != x.id
    requires FirstIndex(rs[1..], x.id).Some? && rs[1..][FirstIndex(rs[1..], x.id).value] == x
    ensures FirstIndex(rs, x.id).Some? && rs[FirstIndex(rs, x.id).value] == x
  {
  }

  /** A first record whose ID was already seen adds nothing. */
  lemma KeepFirstSkip(rs: seq<Record>, seen: set<int>, t: seq<Record>)
    requires |rs| > 0 && rs[0].id in seen
    requires KeepsFirsts(rs[1..], seen, t)
    ensures KeepsFirsts(rs, seen, t)
  {
    IdsCons(rs[0], rs[1..]);
    assert rs == [rs[0]] + rs[1..];
    forall i | 0 <= i < |t|
      ensures FirstIndex(rs, t[i].id).Some? && rs[FirstIndex(rs, t[i].id).value] == t[i]
    {
      assert t[i].id in Ids(t) by { assert Ids(t)[i] == t[i].id; }
      FirstIndexPastHead(rs, t[i]);
    }
  }

  lemma ConsFirstOccurrences(rs: seq<Record>, t: seq<Record>)
    requires |rs| > 0 && rs[0].id !in Ids(t)
    requires FirstOccurrences(rs[1..], t)
    ensures FirstOccurrences(rs, [rs[0]] + t)
  {
    var u := [rs[0]] + t;
    forall i | 0 <= i < |u|
      ensures FirstIndex(rs, u[i].id).Some? && rs[FirstIndex(rs, u[i].id).value] == u[i]
    {
      if i > 0 {
        assert u[i] == t[i - 1];
        assert Ids(t)[i - 1] == t[i - 1].id;
        FirstIndexPastHead(rs, t[i - 1]);
      }
    }
  }

  lemma ConsNoDup(x: int, ids: seq<int>)
    requires x !in ids && NoDup(ids)
    ensures NoDup([x] + ids)
  {
  }

  /** A first record with an unseen ID is kept, in front of the rest. */
  lemma KeepFirstCons(rs: seq<Record>, seen: set<int>, t: seq<Record>)
    requires |rs| > 0 && rs[0].id !in seen
    requires KeepsFirsts(rs[1..], seen + {rs[0].id}, t)
    ensures KeepsFirsts(rs, seen, [rs[0]] + t)
  {
    IdsCons(rs[0], t);
    IdsCons(rs[0], rs[1..]);
    assert rs == [rs[0]] + rs[1..];
    ConsFirstOccurrences(rs, t);
    ConsNoDup(rs[0].id, Ids(t));
  }

  /**
   * Drops every record whose ID is in `seen` or occurred earlier in `rs`,
   * keeping table order (pandas' `drop_duplicates(subset=['ID'])` keeps the
   * first occurrence).
   */
  function KeepFirst(rs: seq<Record>, seen: set<int>): (u: seq<Record>)
    ensures KeepsFirsts(rs, seen, u)
  {
    if |rs| == 0 then []
    else if rs[0].id in seen then
      var t := KeepFirst(rs[1..], seen);
      KeepFirstSkip(rs, seen, t);
      t
    else
      var t := KeepFirst(rs[1..], seen + {rs[0].id});
      KeepFirstCons(rs, seen, t);
      [rs[0]] + t
  }

  /**
   * One record per athlete: exactly the first record of each ID, so the
   * result has as many records as the table has distinct IDs.
   */
  function FirstRecords(rs: seq<Record>): (u: seq<Record>)
    ensures forall i :: 0 <= i < |u| ==>
              FirstIndex(rs, u[i].id).Some? && rs[FirstIndex(rs, u[i].id).value] == u[i]
    ensures NoDup(Ids(u))
    ensures forall id :: id in Ids(u) <==> id in Ids(rs)
    ensures |u| == |Elems(Ids(rs))|
  {
    var u := KeepFirst(rs, {});
    NoDupCardinality(Ids(u));
    assert Elems(Ids(u)) == Elems(Ids(rs));
    u
  }

  /**
   * `value_counts()` of Sex over one record per athlete: each sex code with
   * its number of athletes, largest first; the counts add up to the number
   * of distinct athlete IDs.
   */
  function SexCounts(rs: seq<Record>): (counts: seq<(string, nat)>)
    ensures forall i :: 0 <= i < |counts| ==>
              counts[i].1 == Count(Sexes(FirstRecords(rs)), counts[i].0) && counts[i].1 >= 1
    ensures forall c :: c in Firsts(counts) <==> c in Sexes(FirstRecords(rs))
    ensures NoDup(Firsts(counts))
    ensures forall i, j :: 0 <= i < j < |counts| ==> counts[i].1 >= counts[j].1
    ensures SumSeconds(counts) == |Elems(Ids(rs))|
  {
    ValueCounts(Sexes(FirstRecords(rs)))
  }

  /** The pie's slice name for a sex code. */
  function SexLabel(code: string): (name: string)
    ensures name == "Female" <==> code == "F"
    ensures name == "Male" <==> code != "F"
  {
    if code == "F" then "Female" else "Male"
  }
}
