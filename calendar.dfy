/**
 * Local calendar arithmetic behind the recurring-transaction processor.
 *
 * A JavaScript `Date` is modelled by its local calendar fields (what
 * getFullYear, getMonth() + 1, getDate, getHours, ... return). Time zones,
 * daylight saving and the UTC rendering of toISOString are not modelled.
 */
module Calendar {

  /** A calendar month; `month` runs 1..12 (JavaScript's getMonth() + 1). */
  datatype YearMonth = YearMonth(year: int, month: int)

  predicate ValidMonth(ym: YearMonth) {
    1 <= ym.month <= 12
  }

  type Month = ym: YearMonth | ValidMonth(ym) witness YearMonth(1970, 1)

  /** A point in local time, to the millisecond. */
  datatype Instant = Instant(year: int, month: int, day: int,
                             hour: int, minute: int, second: int, millis: int)

  predicate IsLeapYear(y: int) {
    (y % 4 == 0 && y % 100 != 0) || y % 400 == 0
  }

  function DaysInMonth(y: int, m: int): (d: int)
    requires 1 <= m <= 12
    ensures 28 <= d <= 31
    ensures m == 2 ==> (d == 29 <==> IsLeapYear(y))
  {
    if m == 2 then (if IsLeapYear(y) then 29 else 28)
    else if m == 4 || m == 6 || m == 9 || m == 11 then 30
    else 31
  }

  predicate ValidInstant(t: Instant) {
    1 <= t.month <= 12 && 1 <= t.day <= DaysInMonth(t.year, t.month) &&
    0 <= t.hour < 24 && 0 <= t.minute < 60 && 0 <= t.second < 60 && 0 <= t.millis < 1000
  }

  /** What a JavaScript `Date` holds: a local time whose fields are in range. */
  type Date = t: Instant | ValidInstant(t) witness Instant(1970, 1, 1, 0, 0, 0, 0)

  function MonthOf(t: Date): Month {
    YearMonth(t.year, t.month)
  }

  /** Months counted from January of year 0: consecutive months have consecutive indices. */
  function MonthIndex(ym: YearMonth): int {
    ym.year * 12 + ym.month - 1
  }

  /** A month is determined by its index. */
  lemma IndexDetermines(a: Month, b: Month)
    requires MonthIndex(a) == MonthIndex(b)
    ensures a == b
  {
  }

  /** The month after `ym`, rolling December over into January of the next year. */
  function Next(ym: Month): (r: Month)
    ensures MonthIndex(r) == MonthIndex(ym) + 1
  {
    if ym.month == 12 then YearMonth(ym.year + 1, 1) else YearMonth(ym.year, ym.month + 1)
  }

  /** The month `k` months after `ym`. */
  function AddMonths(ym: Month, k: nat): (r: Month)
    ensures MonthIndex(r) == MonthIndex(ym) + k
  {
    if k == 0 then ym else Next(AddMonths(ym, k - 1))
  }

  /** January 2025 plus 0..3 months is January..April 2025; November 2024 plus two months is January 2025. */
  lemma AddMonthsExample(i: nat)
    requires i < 4
    ensures AddMonths(YearMonth(2025, 1), i) == YearMonth(2025, i + 1)
    ensures AddMonths(YearMonth(2024, 11), 2) == YearMonth(2025, 1)
  {
    IndexDetermines(AddMonths(YearMonth(2025, 1), i), YearMonth(2025, i + 1));
    IndexDetermines(AddMonths(YearMonth(2024, 11), 2), YearMonth(2025, 1));
  }

  /** Chronological order of two local times (what `<=` on two `Date`s compares). */
  predicate AtOrBefore(a: Instant, b: Instant) {
    if a.year != b.year then a.year < b.year
    else if a.month != b.month then a.month < b.month
    else if a.day != b.day then a.day < b.day
    else if a.hour != b.hour then a.hour < b.hour
    else if a.minute != b.minute then a.minute < b.minute
    else if a.second != b.second then a.second < b.second
    else a.millis <= b.millis
  }

  /** AtOrBefore is a total order: any two instants compare, and only equal ones both ways. */
  lemma AtOrBeforeTotalOrder(a: Instant, b: Instant, c: Instant)
    ensures AtOrBefore(a, b) || AtOrBefore(b, a)
    ensures AtOrBefore(a, b) && AtOrBefore(b, a) ==> a == b
    ensures AtOrBefore(a, b) && AtOrBefore(b, c) ==> AtOrBefore(a, c)
  {
  }

  /** Midnight at the start of the 1st of a month. */
  function MonthStart(ym: Month): Date {
    Instant(ym.year, ym.month, 1, 0, 0, 0, 0)
  }

  /**
   * `d.setDate(1); d.setHours(0, 0, 0, 0)`: the earliest instant of the month of `t`.
   */
  function StartOfMonth(t: Date): (r: Date)
    ensures MonthOf(r) == MonthOf(t) && AtOrBefore(r, t)
    ensures forall u: Date :: MonthOf(u) == MonthOf(t) ==> AtOrBefore(r, u)
  {
    t.(day := 1, hour := 0, minute := 0, second := 0, millis := 0)
  }

  /**
   * `d.setDate(1); d.setHours(12, 0, 0, 0)`: noon on the 1st of the month of `t`.
   */
  function NoonOnFirst(t: Date): (r: Date)
    ensures MonthOf(r) == MonthOf(t)
    ensures r.day == 1 && r.hour == 12 && r.minute == 0 && r.second == 0 && r.millis == 0
  {
    t.(day := 1, hour := 12, minute := 0, second := 0, millis := 0)
  }

  /**
   * `d.setMonth(d.getMonth() + 1)` for a day of month that every month has, so
   * JavaScript's roll-over of a too-large day into the following month never happens.
   */
  function AddOneMonth(t: Date): (r: Date)
    requires t.day <= 28
    ensures MonthOf(r) == Next(MonthOf(t))
    ensures r.day == t.day && r.hour == t.hour && r.minute == t.minute
    ensures r.second == t.second && r.millis == t.millis
  {
    var n := Next(MonthOf(t));
    t.(year := n.year, month := n.month)
  }

  /**
   * Comparing the start of a month with any date is comparing months: this is
   * why the processor's `Date` comparisons of its month cursor with `now` and
   * with the end date are month comparisons.
   */
  lemma MonthStartAtOrBefore(ym: Month, t: Date)
    ensures AtOrBefore(MonthStart(ym), t) <==> MonthIndex(ym) <= MonthIndex(MonthOf(t))
  {
  }
}
