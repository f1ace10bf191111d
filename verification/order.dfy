/**
 * The order pandas gives group keys (`groupby` sorts them): strings compare
 * by code point, lexicographically, a proper prefix first; (Season, Year)
 * keys compare by Season, then by Year. Also the sorted key lists built with
 * these orders.
 */
module Order {
  import opened Seqs

  /** Code-point lexicographic order on strings. */
  predicate StrLess(a: string, b: string)
  {
    |b| > 0 && (|a| == 0 || a[0] < b[0] || (a[0] == b[0] && StrLess(a[1..], b[1..])))
  }

  lemma {:induction false} StrLessIrreflexive(a: string)
    ensures !StrLess(a, a)
  {
    if |a| > 0 {
      StrLessIrreflexive(a[1..]);
    }
  }

  lemma {:induction false} StrLessTransitive(a: string, b: string, c: string)
    requires StrLess(a, b) && StrLess(b, c)
    ensures StrLess(a, c)
  {
    if |a| > 0 && a[0] == b[0] && b[0] == c[0] {
      StrLessTransitive(a[1..], b[1..], c[1..]);
    }
  }

  lemma {:induction false} StrLessTotal(a: string, b: string)
    ensures a == b || StrLess(a, b) || StrLess(b, a)
  {
    if |a| > 0 && |b| > 0 && a[0] == b[0] {
      StrLessTotal(a[1..], b[1..]);
      if a[1..] == b[1..] {
        assert a == [a[0]] + a[1..] && b == [b[0]] + b[1..];
      }
    }
  }

  /** (Season, Year) keys: by Season, then by Year. */
  predicate GamesLess(a: (string, int), b: (string, int))
  {
    StrLess(a.0, b.0) || (a.0 == b.0 && a.1 < b.1)
  }

  lemma GamesLessIrreflexive(a: (string, int))
    ensures !GamesLess(a, a)
  {
    StrLessIrreflexive(a.0);
  }

  lemma GamesLessTransitive(a: (string, int), b: (string, int), c: (string, int))
    requires GamesLess(a, b) && GamesLess(b, c)
    ensures GamesLess(a, c)
  {
    if StrLess(a.0, b.0) && StrLess(b.0, c.0) {
      StrLessTransitive(a.0, b.0, c.0);
    }
  }

  lemma GamesLessTotal(a: (string, int), b: (string, int))
    ensures a == b || GamesLess(a, b) || GamesLess(b, a)
  {
    StrLessTotal(a.0, b.0);
  }

  predicate StringsAscending(xs: seq<string>)
  {
    forall i, j :: 0 <= i < j < |xs| ==> StrLess(xs[i], xs[j])
  }

  predicate GamesAscending(xs: seq<(string, int)>)
  {
    forall i, j :: 0 <= i < j < |xs| ==> GamesLess(xs[i], xs[j])
  }

  /** Adds `x` to the strictly ascending `xs` unless it is already there. */
  function InsertString(x: string, xs: seq<string>): seq<string>
  {
    if |xs| == 0 then [x]
    else if x == xs[0] then xs
    else if StrLess(x, xs[0]) then [x] + xs
    else [xs[0]] + InsertString(x, xs[1..])
  }

  lemma {:induction false} InsertStringAscending(x: string, xs: seq<string>)
    requires StringsAscending(xs)
    ensures StringsAscending(InsertString(x, xs))
    ensures forall y :: y in InsertString(x, xs) <==> y == x || y in xs
  {
    if |xs| == 0 {
    } else if x == xs[0] {
    } else if StrLess(x, xs[0]) {
      forall j | 0 <= j < |xs|
        ensures StrLess(x, xs[j])
      {
        if j > 0 {
          StrLessTransitive(x, xs[0], xs[j]);
        }
      }
    } else {
      StrLessTotal(x, xs[0]);
      assert xs == [xs[0]] + xs[1..];
      InsertStringAscending(x, xs[1..]);
      var t := InsertString(x, xs[1..]);
      forall j | 0 <= j < |t|
        ensures StrLess(xs[0], t[j])
      {
        if t[j] != x {
          assert t[j] in t;
          var k :| 0 <= k < |xs[1..]| && xs[1..][k] == t[j];
          assert xs[k + 1] == t[j];
        }
      }
    }
  }

  /** The distinct strings of `xs`, ascending (the level order of a `groupby` key). */
  function SortedStrings(xs: seq<string>): (r: seq<string>)
    ensures StringsAscending(r)
    ensures forall y :: y in r <==> y in xs
  {
    if |xs| == 0 then []
    else
      var p := xs[..|xs| - 1];
      var r := SortedStrings(p);
      InsertStringAscending(xs[|xs| - 1], r);
      assert xs == p + [xs[|xs| - 1]];
      InsertString(xs[|xs| - 1], r)
  }

  lemma StringsAscendingNoDup(xs: seq<string>)
    requires StringsAscending(xs)
    ensures NoDup(xs)
  {
    forall i, j | 0 <= i < j < |xs|
      ensures xs[i] != xs[j]
    {
      StrLessIrreflexive(xs[i]);
    }
  }

  /** Adds `x` to the strictly ascending `xs` unless it is already there. */
  function InsertGames(x: (string, int), xs: seq<(string, int)>): seq<(string, int)>
  {
    if |xs| == 0 then [x]
    else if x == xs[0] then xs
    else if GamesLess(x, xs[0]) then [x] + xs
    else [xs[0]] + InsertGames(x, xs[1..])
  }

  lemma {:induction false} InsertGamesAscending(x: (string, int), xs: seq<(string, int)>)
    requires GamesAscending(xs)
    ensures GamesAscending(InsertGames(x, xs))
    ensures forall y :: y in InsertGames(x, xs) <==> y == x || y in xs
  {
    if |xs| == 0 {
    } else if x == xs[0] {
    } else if GamesLess(x, xs[0]) {
      forall j | 0 <= j < |xs|
        ensures GamesLess(x, xs[j])
      {
        if j > 0 {
          GamesLessTransitive(x, xs[0], xs[j]);
        }
      }
    } else {
      GamesLessTotal(x, xs[0]);
      assert xs == [xs[0]] + xs[1..];
      InsertGamesAscending(x, xs[1..]);
      var t := InsertGames(x, xs[1..]);
      forall j | 0 <= j < |t|
        ensures GamesLess(xs[0], t[j])
      {
        if t[j] != x {
          assert t[j] in t;
          var k :| 0 <= k < |xs[1..]| && xs[1..][k] == t[j];
          assert xs[k + 1] == t[j];
        }
      }
    }
  }

  /** The distinct (Season, Year) keys of `xs`, ascending. */
  function SortedGames(xs: seq<(string, int)>): (r: seq<(string, int)>)
    ensures GamesAscending(r)
    ensures forall y :: y in r <==> y in xs
  {
    if |xs| == 0 then []
    else
      var p := xs[..|xs| - 1];
      var r := SortedGames(p);
      InsertGamesAscending(xs[|xs| - 1], r);
      assert xs == p + [xs[|xs| - 1]];
      InsertGames(xs[|xs| - 1], r)
  }

  lemma GamesAscendingNoDup(xs: seq<(string, int)>)
    requires GamesAscending(xs)
    ensures NoDup(xs)
  {
    forall i, j | 0 <= i < j < |xs|
      ensures xs[i] != xs[j]
    {
      GamesLessIrreflexive(xs[i]);
    }
  }
}
