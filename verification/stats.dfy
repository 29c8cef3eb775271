/** The `GET /api/admin/stats` report: visit counts and top countries over four windows ending
    now. `startOfDay(now)` (local midnight, a time-zone calendar computation) is not computed here:
    the caller supplies it as `dayStart`, of which only `dayStart <= now` is assumed. */
module Stats {
  import opened Visits
  import opened Countries

  const DayMs := 24 * 3600 * 1000

  /** An inclusive `ts BETWEEN lo AND hi` window. */
  datatype Window = Window(lo: int, hi: int)

  datatype Windows = Windows(day: Window, week: Window, month: Window, all: Window)

  /** The windows the handler queries: today, the last seven days and the last thirty days, each
      counted from local midnight, and everything since the epoch; all end at `end`. */
  function WindowsAt(end: int, dayStart: int): (ws: Windows)
    requires dayStart <= end
    ensures ws.month.lo <= ws.week.lo <= ws.day.lo <= ws.day.hi
    ensures ws.day.hi == ws.week.hi == ws.month.hi == ws.all.hi == end
    ensures ws.day.lo == dayStart && ws.all.lo == 0
    ensures ws.week.lo == dayStart - 6 * DayMs && ws.month.lo == dayStart - 29 * DayMs
  {
    Windows(
      Window(dayStart, end),
      Window(dayStart - 6 * DayMs, end),
      Window(dayStart - 29 * DayMs, end),
      Window(0, end))
  }

  /** `{ visits, countries }` for one window. */
  datatype WindowStats = WindowStats(visits: nat, countries: seq<CountryCount>)

  datatype Report = Report(day: WindowStats, week: WindowStats, month: WindowStats, all: WindowStats)

  /** `by(s, e)` and `topCountries.all(s, e)` for one window. */
  function Summarize(vs: Store, w: Window): (s: WindowStats)
    ensures s.visits == |Between(vs, w.lo, w.hi)|
    ensures IsTopCountries(Between(vs, w.lo, w.hi), s.countries)
    ensures SumCounts(s.countries) <= s.visits
  {
    TopCountriesWithinCount(vs, w.lo, w.hi);
    WindowStats(CountByRange(vs, w.lo, w.hi), TopCountries(vs, w.lo, w.hi))
  }

  /** No stored visit predates the epoch. */
  predicate NoneBeforeEpoch(vs: Store)
  {
    forall v :: v in vs ==> v.ts >= 0
  }

  /** The stats report. The day, week and month counts are nested; the month count is at most the
      all-time count provided the month window starts at or after the epoch or no visit is dated
      before it. */
  function StatsReport(vs: Store, end: int, dayStart: int): (r: Report)
    requires dayStart <= end
    ensures r.day.visits <= r.week.visits <= r.month.visits
    ensures dayStart >= 29 * DayMs || NoneBeforeEpoch(vs) ==> r.month.visits <= r.all.visits
    ensures r.day == Summarize(vs, Window(dayStart, end))
    ensures r.week == Summarize(vs, Window(dayStart - 6 * DayMs, end))
    ensures r.month == Summarize(vs, Window(dayStart - 29 * DayMs, end))
    ensures r.all == Summarize(vs, Window(0, end))
  {
    var ws := WindowsAt(end, dayStart);
    CountMonotone(vs, ws.day.lo, end, ws.week.lo, end);
    CountMonotone(vs, ws.week.lo, end, ws.month.lo, end);
    MonthWithinAll(vs, end, dayStart);
    Report(Summarize(vs, ws.day), Summarize(vs, ws.week), Summarize(vs, ws.month), Summarize(vs, ws.all))
  }

  /** The month window counts no more than the all-time window when it starts at or after the
      epoch, or when nothing is dated before the epoch. */
  lemma MonthWithinAll(vs: Store, end: int, dayStart: int)
    ensures dayStart >= 29 * DayMs || NoneBeforeEpoch(vs) ==>
              CountByRange(vs, dayStart - 29 * DayMs, end) <= CountByRange(vs, 0, end)
  {
    if dayStart >= 29 * DayMs || NoneBeforeEpoch(vs) {
      forall v | v in vs && InRange(v, dayStart - 29 * DayMs, end)
        ensures InRange(v, 0, end)
      {
        assert v.ts >= 0;
      }
      CountCovered(vs, dayStart - 29 * DayMs, end, 0, end);
    }
  }

  /** Without that condition the month count can exceed the all-time count: one visit dated a
      millisecond before the epoch, on the first day after it. */
  lemma MonthMayExceedAll()
    ensures var vs := [Visit(1, -1, "", "", "Unknown", Str("/"), Str(""))];
            && Valid(vs)
            && StatsReport(vs, 0, 0).month.visits == 1
            && StatsReport(vs, 0, 0).all.visits == 0
  {
    var vs := [Visit(1, -1, "", "", "Unknown", Str("/"), Str(""))];
    assert Between(vs[1..], -29 * DayMs, 0) == [];
    assert Between(vs, -29 * DayMs, 0) == [vs[0]];
    assert Between(vs, 0, 0) == [];
  }
}
