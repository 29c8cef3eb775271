/** The `visits` table and the three queries the admin API runs over it: the range count, the
    most-recent listing, and (in module Countries) the per-country top list. The table is a
    sequence of rows in insertion order. */
module Visits {
  import opened Wrappers
  import Text

  /** A value stored in a nullable TEXT column (`path`, `ref`): what the tracking handler binds. */
  datatype Cell = Null | Str(text: string) | Num(num: real)

  /** A row of `visits`. */
  datatype Visit = Visit(id: int, ts: int, ip: string, ua: string, country: string, path: Cell, ref: Cell)

  type Store = seq<Visit>

  /** The largest rowid SQLite can assign, 2^63 - 1. */
  const MaxRowId: int := 0x7FFF_FFFF_FFFF_FFFF

  /** The table invariant: rowids are positive, within range, and strictly increasing in
      insertion order (`INTEGER PRIMARY KEY AUTOINCREMENT`, and rows are never deleted). */
  predicate Valid(vs: Store)
  {
    && (forall i :: 0 <= i < |vs| ==> 1 <= vs[i].id <= MaxRowId)
    && (forall i, j :: 0 <= i < j < |vs| ==> vs[i].id < vs[j].id)
  }

  /** The rowid AUTOINCREMENT assigns next: one more than the largest so far, 1 for an empty table. */
  function NextId(vs: Store): int
  {
    if vs == [] then 1 else vs[|vs| - 1].id + 1
  }

  /** `INSERT INTO visits …`: appends a row under the next rowid. It fails (SQLITE_FULL) only when
      the largest rowid is already in use; the table is then left as it was. */
  function Append(vs: Store, ts: int, ip: string, ua: string, country: string, path: Cell, ref: Cell): (r: Option<Store>)
    requires Valid(vs)
    ensures r.None? ==> vs != [] && vs[|vs| - 1].id == MaxRowId
    ensures r.Some? ==>
              && Valid(r.value)
              && |r.value| == |vs| + 1
              && r.value == vs + [Visit(r.value[|vs|].id, ts, ip, ua, country, path, ref)]
              && forall i :: 0 <= i < |vs| ==> vs[i].id < r.value[|vs|].id
    ensures r.Some? ==> r.value[|vs|].id == NextId(vs)
  {
    var id := NextId(vs);
    if id > MaxRowId then None
    else Some(vs + [Visit(id, ts, ip, ua, country, path, ref)])
  }

  /** `ts BETWEEN lo AND hi`: both bounds are inclusive. */
  predicate InRange(v: Visit, lo: int, hi: int)
  {
    lo <= v.ts <= hi
  }

  /** The rows of `vs` with `ts BETWEEN lo AND hi`, in table order: every in-range row as often
      as it is stored, and no other row. */
  function Between(vs: Store, lo: int, hi: int): (w: Store)
    ensures |w| <= |vs|
    ensures forall v :: v in w <==> v in vs && InRange(v, lo, hi)
    ensures forall v :: multiset(w)[v] == if InRange(v, lo, hi) then multiset(vs)[v] else 0
  {
    if vs == [] then []
    else
      assert vs == [vs[0]] + vs[1..];
      (if InRange(vs[0], lo, hi) then [vs[0]] else []) + Between(vs[1..], lo, hi)
  }

  /** The number of visits with `lo <= ts <= hi`: none exactly when no row is in range, all of
      them exactly when every row is. */
  function CountByRange(vs: Store, lo: int, hi: int): (n: nat)
    ensures n <= |vs|
    ensures n == 0 <==> forall i :: 0 <= i < |vs| ==> !InRange(vs[i], lo, hi)
    ensures n == |vs| <==> forall i :: 0 <= i < |vs| ==> InRange(vs[i], lo, hi)
  {
    CountNone(vs, lo, hi);
    CountAll(vs, lo, hi);
    |Between(vs, lo, hi)|
  }

  /** A window is empty exactly when no row is in range. */
  lemma CountNone(vs: Store, lo: int, hi: int)
    ensures Between(vs, lo, hi) == [] <==> forall i :: 0 <= i < |vs| ==> !InRange(vs[i], lo, hi)
  {
    var w := Between(vs, lo, hi);
    if w != [] {
      assert w[0] in vs && InRange(w[0], lo, hi);
    }
  }

  /** A window holds every row exactly when every row is in range. */
  lemma {:induction false} CountAll(vs: Store, lo: int, hi: int)
    ensures |Between(vs, lo, hi)| == |vs| <==> forall i :: 0 <= i < |vs| ==> InRange(vs[i], lo, hi)
  {
    if vs != [] {
      var rest := vs[1..];
      CountAll(rest, lo, hi);
      var w := Between(rest, lo, hi);
      assert |Between(vs, lo, hi)| == (if InRange(vs[0], lo, hi) then 1 else 0) + |w|;
      assert |w| <= |rest|;
      AllInRangeSplit(vs, lo, hi);
    }
  }

  lemma AllInRangeSplit(vs: Store, lo: int, hi: int)
    requires vs != []
    ensures (forall i :: 0 <= i < |vs| ==> InRange(vs[i], lo, hi))
            <==> InRange(vs[0], lo, hi) && forall i :: 0 <= i < |vs| - 1 ==> InRange(vs[1..][i], lo, hi)
  {
    assert forall i :: 1 <= i < |vs| ==> vs[i] == vs[1..][i - 1];
  }

  /** Recording a visit raises the count of exactly the windows that contain its timestamp, by one. */
  lemma {:induction false} CountAppend(vs: Store, v: Visit, lo: int, hi: int)
    ensures CountByRange(vs + [v], lo, hi) == CountByRange(vs, lo, hi) + (if InRange(v, lo, hi) then 1 else 0)
  {
    if vs == [] {
      assert [v][1..] == [];
    } else {
      assert (vs + [v])[1..] == vs[1..] + [v];
      CountAppend(vs[1..], v, lo, hi);
    }
  }

  /** A window holding every in-range row of another counts at least as many rows. */
  lemma {:induction false} CountCovered(vs: Store, lo: int, hi: int, lo': int, hi': int)
    requires forall v :: v in vs && InRange(v, lo, hi) ==> InRange(v, lo', hi')
    ensures CountByRange(vs, lo, hi) <= CountByRange(vs, lo', hi')
  {
    if vs != [] {
      CountCovered(vs[1..], lo, hi, lo', hi');
    }
  }

  /** Range counts are monotone in the window: widening it never lowers the count. */
  lemma CountMonotone(vs: Store, lo: int, hi: int, lo': int, hi': int)
    requires lo' <= lo && hi <= hi'
    ensures CountByRange(vs, lo, hi) <= CountByRange(vs, lo', hi')
  {
    CountCovered(vs, lo, hi, lo', hi');
  }

  /** The columns `SELECT ts, ip, country, path, ref` returns. */
  datatype VisitView = VisitView(ts: int, ip: string, country: string, path: Cell, ref: Cell)

  function View(v: Visit): VisitView
  {
    VisitView(v.ts, v.ip, v.country, v.path, v.ref)
  }

  /** The number of rows `LIMIT limit` lets through from a table of `size`: SQLite reads a
      negative limit as no limit at all. */
  function LimitedCount(limit: int, size: nat): (n: nat)
    ensures n <= size
    ensures limit < 0 ==> n == size
    ensures 0 <= limit ==> n == if limit < size then limit else size
  {
    if 0 <= limit < size then limit else size
  }

  /** What `ORDER BY id DESC LIMIT limit` means: `rows` are the right number of distinct rows of
      `vs`, in strictly decreasing id order, and every row left out has a smaller id than every
      row returned. */
  predicate IsNewestFirst(vs: Store, limit: int, rows: Store)
  {
    && |rows| == LimitedCount(limit, |vs|)
    && (forall i :: 0 <= i < |rows| ==> rows[i] in vs)
    && (forall i, j :: 0 <= i < j < |rows| ==> rows[i].id > rows[j].id)
    && (forall v, i :: v in vs && v !in rows && 0 <= i < |rows| ==> v.id < rows[i].id)
  }

  /** The rows of `ORDER BY id DESC LIMIT limit`: the table read backwards, cut to the limit. */
  function NewestFirst(vs: Store, limit: int): (rows: Store)
    requires Valid(vs)
    ensures IsNewestFirst(vs, limit, rows)
  {
    var n := LimitedCount(limit, |vs|);
    var rows := seq(n, i requires 0 <= i < n => vs[|vs| - 1 - i]);
    assert forall k :: |vs| - n <= k < |vs| ==> rows[|vs| - 1 - k] == vs[k];
    rows
  }

  /** `recentVisits.all(limit)`: the selected columns of the newest rows, newest first. */
  function RecentVisits(vs: Store, limit: int): (views: seq<VisitView>)
    requires Valid(vs)
    ensures |views| == LimitedCount(limit, |vs|)
    ensures forall i :: 0 <= i < |views| ==> views[i] == View(NewestFirst(vs, limit)[i])
  {
    var rows := NewestFirst(vs, limit);
    seq(|rows|, i requires 0 <= i < |rows| => View(rows[i]))
  }

  const DefaultLimit := 100
  const MaxLimit := 500

  /** The most negative limit the visits query accepts. The driver hands a JavaScript number to
      SQLite as a double, and SQLite takes a double LIMIT only when it converts exactly to a 64-bit
      integer strictly inside that type's range. -2^63 is outside, and so is every integer that
      rounds to it as a double: all those at or below -(2^63 - 512), the tie rounding to even.
      Such a limit makes the query throw. */
  const MinLimit := -0x7FFF_FFFF_FFFF_FDFF

  /** The row limit of the visits listing: the `limit` query parameter (100 when missing or
      empty) read by `parseInt`, capped at 500. `None` stands for NaN, which is what a limit
      without leading digits gives; what SQLite then does with it is not modelled. */
  function LimitFromQuery(query: Option<string>): (limit: Option<int>)
    ensures query.None? || query == Some("") ==> limit == Some(DefaultLimit)
    ensures limit.Some? ==> limit.value <= MaxLimit
    ensures query.Some? && query.value != "" ==>
              match Text.ParseInt(query.value)
              case None => limit.None?
              case Some(n) => limit == Some(if n < MaxLimit then n else MaxLimit)
  {
    var raw := if query.Some? && query.value != "" then query.value else "100";
    Text.ParseHundred();
    match Text.ParseInt(raw)
    case None => None
    case Some(n) => Some(if n < MaxLimit then n else MaxLimit)
  }

  /** A `limit` written as a minus sign and the decimal digits of `n` is read as -n. */
  lemma LimitOfNegative(n: nat)
    ensures LimitFromQuery(Some("-" + Text.ShowNat(n))) == Some(-(n as int))
  {
    Text.ParseShowNeg(n);
  }

  /** A decimal `limit` parameter `k` selects `min(k, 500)` rows, and so returns the
      `min(k, 500, |vs|)` newest rows. */
  lemma DecimalLimit(vs: Store, k: nat)
    requires Valid(vs)
    ensures LimitFromQuery(Some(Text.ShowNat(k))) == Some(if k < MaxLimit then k else MaxLimit)
    ensures var n := if k < MaxLimit then k else MaxLimit;
            |RecentVisits(vs, n)| == if n < |vs| then n else |vs|
  {
    Text.ParseShowNat(k);
  }
}
