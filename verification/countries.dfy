/** The top-countries query: visits in an inclusive time window, grouped by country and counted,
    largest count first, at most ten rows. SQLite leaves the order of tied counts to the engine, so the
    query is specified by `IsTopCountries`, which admits any order among ties, and `TopCountries`
    computes one answer it admits. */
module Countries {
  import opened Visits

  /** A result row: a country and its number of visits in the window. */
  datatype CountryCount = CountryCount(country: string, c: nat)

  const TopLimit := 10

  /** The number of rows of `w` from `country`. */
  function CountOf(w: Store, country: string): nat
  {
    if w == [] then 0 else (if w[0].country == country then 1 else 0) + CountOf(w[1..], country)
  }

  /** The countries that occur in `w`. */
  function CountriesIn(w: Store): set<string>
  {
    set v | v in w :: v.country
  }

  ghost predicate NoDup<T>(s: seq<T>)
  {
    forall i, j :: 0 <= i < j < |s| ==> s[i] != s[j]
  }

  /** No country appears on two rows. */
  predicate DistinctRows(rows: seq<CountryCount>)
  {
    forall i, j :: 0 <= i < j < |rows| ==> rows[i].country != rows[j].country
  }

  /** Counts never go up from one row to the next (descending order of count). */
  predicate NonIncreasing(rows: seq<CountryCount>)
  {
    forall i, j :: 0 <= i < j < |rows| ==> rows[i].c >= rows[j].c
  }

  /** Some row is for `country`. */
  predicate Listed(rows: seq<CountryCount>, country: string)
  {
    exists i :: 0 <= i < |rows| && rows[i].country == country
  }

  function SumCounts(rows: seq<CountryCount>): nat
  {
    if rows == [] then 0 else rows[0].c + SumCounts(rows[1..])
  }

  /** What the query promises for the rows `w` of a window: one row for each of the ten (or fewer)
      most visited countries, each with its exact visit count, counts non-increasing, and no
      country left out that has more visits than a country listed. */
  predicate IsTopCountries(w: Store, rows: seq<CountryCount>)
  {
    && |rows| == (if |CountriesIn(w)| < TopLimit then |CountriesIn(w)| else TopLimit)
    && DistinctRows(rows)
    && NonIncreasing(rows)
    && (forall i :: 0 <= i < |rows| ==> 1 <= rows[i].c == CountOf(w, rows[i].country))
    && (forall c, i :: c in CountriesIn(w) && !Listed(rows, c) && 0 <= i < |rows| ==>
                         CountOf(w, c) <= rows[i].c)
  }

  /** A country has visits in `w` exactly when it occurs in `w`. */
  lemma {:induction false} CountOfPositive(w: Store, country: string)
    ensures CountOf(w, country) >= 1 <==> country in CountriesIn(w)
  {
    if w != [] {
      CountOfPositive(w[1..], country);
      assert CountriesIn(w) == {w[0].country} + CountriesIn(w[1..]);
    }
  }

  /** The countries of `w`, each once. */
  function DistinctCountries(w: Store): (cs: seq<string>)
    ensures NoDup(cs)
    ensures forall c :: c in cs <==> CountOf(w, c) >= 1
  {
    if w == [] then []
    else
      var rest := DistinctCountries(w[1..]);
      if w[0].country in rest then rest else [w[0].country] + rest
  }

  /** A sequence without repetitions has as many elements as its set. */
  lemma {:induction false} NoDupCard<T>(s: seq<T>)
    requires NoDup(s)
    ensures |set x | x in s| == |s|
  {
    if s != [] {
      NoDupCard(s[1..]);
      assert (set x | x in s) == {s[0]} + (set x | x in s[1..]);
    }
  }

  /** Grouping by country with a row count: one row per country of `w`. */
  function Group(w: Store): (rows: seq<CountryCount>)
    ensures |rows| == |CountriesIn(w)|
    ensures DistinctRows(rows)
    ensures forall i :: 0 <= i < |rows| ==> 1 <= rows[i].c == CountOf(w, rows[i].country)
    ensures forall c :: c in CountriesIn(w) ==> CountryCount(c, CountOf(w, c)) in rows
  {
    var cs := DistinctCountries(w);
    var rows := seq(|cs|, i requires 0 <= i < |cs| => CountryCount(cs[i], CountOf(w, cs[i])));
    forall c | c in CountriesIn(w)
      ensures CountryCount(c, CountOf(w, c)) in rows
    {
      CountOfPositive(w, c);
      var i :| 0 <= i < |cs| && cs[i] == c;
      assert rows[i] == CountryCount(c, CountOf(w, c));
    }
    forall c
      ensures c in cs <==> c in CountriesIn(w)
    {
      CountOfPositive(w, c);
    }
    assert (set c | c in cs) == CountriesIn(w);
    NoDupCard(cs);
    rows
  }

  /** Inserts `p` into a non-increasing list after every row whose count is larger. */
  function Insert(p: CountryCount, rows: seq<CountryCount>): (r: seq<CountryCount>)
    requires NonIncreasing(rows)
    ensures NonIncreasing(r)
    ensures multiset(r) == multiset(rows) + multiset{p}
  {
    if rows == [] || p.c >= rows[0].c then [p] + rows
    else
      var rest := Insert(p, rows[1..]);
      InsertBelowHead(p, rows, rest);
      [rows[0]] + rest
  }

  /** Below the head of a non-increasing list, inserting a row of smaller count into the tail keeps
      the list non-increasing and adds exactly that row. */
  lemma InsertBelowHead(p: CountryCount, rows: seq<CountryCount>, rest: seq<CountryCount>)
    requires rows != [] && NonIncreasing(rows) && p.c < rows[0].c
    requires NonIncreasing(rest) && multiset(rest) == multiset(rows[1..]) + multiset{p}
    ensures NonIncreasing([rows[0]] + rest)
    ensures multiset([rows[0]] + rest) == multiset(rows) + multiset{p}
  {
    forall j | 0 <= j < |rest|
      ensures rest[j].c <= rows[0].c
    {
      assert rest[j] in multiset(rows[1..]) + multiset{p};
    }
    var r := [rows[0]] + rest;
    forall i, j | 0 <= i < j < |r|
      ensures r[i].c >= r[j].c
    {
      assert r[j] == rest[j - 1];
      if i > 0 {
        assert r[i] == rest[i - 1];
      }
    }
    assert rows == [rows[0]] + rows[1..];
  }

  /** A head whose country is not in a list of distinct countries keeps them distinct. */
  lemma ConsDistinct(h: CountryCount, rest: seq<CountryCount>)
    requires DistinctRows(rest)
    requires forall j :: 0 <= j < |rest| ==> rest[j].country != h.country
    ensures DistinctRows([h] + rest)
  {
    var r := [h] + rest;
    forall i, j | 0 <= i < j < |r|
      ensures r[i].country != r[j].country
    {
      assert r[j] == rest[j - 1];
      if i > 0 {
        assert r[i] == rest[i - 1];
      }
    }
  }

  /** Inserting a row for a new country keeps the countries distinct. */
  lemma {:induction false} InsertDistinct(p: CountryCount, rows: seq<CountryCount>)
    requires NonIncreasing(rows) && DistinctRows(rows)
    requires forall x :: x in rows ==> x.country != p.country
    ensures DistinctRows(Insert(p, rows))
  {
    if rows == [] || p.c >= rows[0].c {
      forall j | 0 <= j < |rows|
        ensures rows[j].country != p.country
      {
        assert rows[j] in rows;
      }
      ConsDistinct(p, rows);
    } else {
      var rest := Insert(p, rows[1..]);
      assert DistinctRows(rows[1..]) by {
        forall i, j | 0 <= i < j < |rows[1..]|
          ensures rows[1..][i].country != rows[1..][j].country
        {
          assert rows[1..][i] == rows[i + 1] && rows[1..][j] == rows[j + 1];
        }
      }
      InsertDistinct(p, rows[1..]);
      forall j | 0 <= j < |rest|
        ensures rest[j].country != rows[0].country
      {
        assert rest[j] in multiset(rows[1..]) + multiset{p};
      }
      ConsDistinct(rows[0], rest);
    }
  }

  /** Insertion sort by descending count: a permutation of `rows`, non-increasing. */
  function SortByCount(rows: seq<CountryCount>): (r: seq<CountryCount>)
    ensures NonIncreasing(r)
    ensures multiset(r) == multiset(rows)
  {
    if rows == [] then []
    else
      assert rows == [rows[0]] + rows[1..];
      Insert(rows[0], SortByCount(rows[1..]))
  }

  /** Sorting rows with distinct countries keeps them distinct. */
  lemma {:induction false} SortDistinct(rows: seq<CountryCount>)
    requires DistinctRows(rows)
    ensures DistinctRows(SortByCount(rows))
  {
    if rows != [] {
      var sorted := SortByCount(rows[1..]);
      SortDistinct(rows[1..]);
      forall x | x in sorted
        ensures x.country != rows[0].country
      {
        assert x in multiset(rows[1..]);
        var j :| 0 <= j < |rows[1..]| && rows[1..][j] == x;
        assert rows[j + 1] == x;
      }
      InsertDistinct(rows[0], sorted);
    }
  }

  /** The ten largest groups, by descending count, among the groups of the rows of `vs` in `[lo, hi]`. */
  function TopCountries(vs: Store, lo: int, hi: int): (rows: seq<CountryCount>)
    ensures IsTopCountries(Between(vs, lo, hi), rows)
  {
    var w := Between(vs, lo, hi);
    var groups := Group(w);
    var sorted := SortByCount(groups);
    var rows := if |sorted| <= TopLimit then sorted else sorted[..TopLimit];
    SortDistinct(groups);
    TopIsTop(w, groups, sorted, rows);
    rows
  }

  /** The kept prefix of the sorted groups meets every clause of `IsTopCountries`. */
  lemma TopIsTop(w: Store, groups: seq<CountryCount>, sorted: seq<CountryCount>, rows: seq<CountryCount>)
    requires groups == Group(w)
    requires NonIncreasing(sorted) && multiset(sorted) == multiset(groups) && DistinctRows(sorted)
    requires rows == if |sorted| <= TopLimit then sorted else sorted[..TopLimit]
    ensures IsTopCountries(w, rows)
  {
    TopIsMaximal(w, groups, sorted, rows);
    PrefixOrdered(sorted, rows);
  }

  /** A prefix of a non-increasing list of distinct countries is one too. */
  lemma PrefixOrdered(sorted: seq<CountryCount>, rows: seq<CountryCount>)
    requires NonIncreasing(sorted) && DistinctRows(sorted)
    requires rows == if |sorted| <= TopLimit then sorted else sorted[..TopLimit]
    ensures NonIncreasing(rows) && DistinctRows(rows)
    ensures |rows| == if |sorted| < TopLimit then |sorted| else TopLimit
  {
    assert forall j :: 0 <= j < |rows| ==> rows[j] == sorted[j];
  }

  /** The rows kept are the most visited countries: anything cut off has no more visits. */
  lemma TopIsMaximal(w: Store, groups: seq<CountryCount>, sorted: seq<CountryCount>, rows: seq<CountryCount>)
    requires groups == Group(w)
    requires NonIncreasing(sorted) && multiset(sorted) == multiset(groups) && DistinctRows(sorted)
    requires rows == if |sorted| <= TopLimit then sorted else sorted[..TopLimit]
    ensures |sorted| == |groups|
    ensures forall i :: 0 <= i < |rows| ==> 1 <= rows[i].c == CountOf(w, rows[i].country)
    ensures forall c, i :: c in CountriesIn(w) && !Listed(rows, c) && 0 <= i < |rows| ==>
                             CountOf(w, c) <= rows[i].c
  {
    assert |sorted| == |multiset(sorted)| == |multiset(groups)| == |groups|;
    forall i | 0 <= i < |rows|
      ensures 1 <= rows[i].c == CountOf(w, rows[i].country)
    {
      assert rows[i] in multiset(groups);
    }
    forall c, i | c in CountriesIn(w) && !Listed(rows, c) && 0 <= i < |rows|
      ensures CountOf(w, c) <= rows[i].c
    {
      var g := CountryCount(c, CountOf(w, c));
      assert g in multiset(sorted);
      var k :| 0 <= k < |sorted| && sorted[k] == g;
      assert forall j :: 0 <= j < |rows| ==> rows[j] == sorted[j];
      assert k >= |rows|;
      assert sorted[i] == rows[i];
    }
  }

  /** The number of rows of `w` whose country is in `cs`. */
  function CountAmong(w: Store, cs: set<string>): nat
  {
    if w == [] then 0 else (if w[0].country in cs then 1 else 0) + CountAmong(w[1..], cs)
  }

  lemma {:induction false} CountAmongAdd(w: Store, c: string, cs: set<string>)
    requires c !in cs
    ensures CountAmong(w, cs + {c}) == CountOf(w, c) + CountAmong(w, cs)
  {
    if w != [] {
      CountAmongAdd(w[1..], c, cs);
    }
  }

  lemma {:induction false} CountAmongNone(w: Store)
    ensures CountAmong(w, {}) == 0
  {
    if w != [] {
      CountAmongNone(w[1..]);
    }
  }

  lemma {:induction false} CountAmongBound(w: Store, cs: set<string>)
    ensures CountAmong(w, cs) <= |w|
  {
    if w != [] {
      CountAmongBound(w[1..], cs);
    }
  }

  /** Rows with distinct countries and exact counts account for the visits of their countries. */
  lemma {:induction false} SumIsCountAmong(w: Store, rows: seq<CountryCount>)
    requires DistinctRows(rows)
    requires forall i :: 0 <= i < |rows| ==> rows[i].c == CountOf(w, rows[i].country)
    ensures SumCounts(rows) == CountAmong(w, set r | r in rows :: r.country)
  {
    if rows == [] {
      assert (set r | r in rows :: r.country) == {};
      CountAmongNone(w);
    } else {
      var rest := rows[1..];
      SumIsCountAmong(w, rest);
      var cs := set r | r in rest :: r.country;
      assert (set r | r in rows :: r.country) == cs + {rows[0].country};
      assert rows[0].country !in cs by {
        forall r | r in rest
          ensures r.country != rows[0].country
        {
          var j :| 0 <= j < |rest| && rest[j] == r;
          assert rows[j + 1] == r;
        }
      }
      CountAmongAdd(w, rows[0].country, cs);
    }
  }

  /** The counts of the top countries of a window add up to no more than the window's visit
      count. */
  lemma TopCountriesWithinCount(vs: Store, lo: int, hi: int)
    ensures SumCounts(TopCountries(vs, lo, hi)) <= CountByRange(vs, lo, hi)
  {
    var w := Between(vs, lo, hi);
    var rows := TopCountries(vs, lo, hi);
    SumIsCountAmong(w, rows);
    CountAmongBound(w, set r | r in rows :: r.country);
  }
}
