/**
 * Month-boundary arithmetic on proleptic Gregorian dates and the walk that
 * splits the time from a start date up to today into one period per
 * calendar month.
 */
module Localuser {

  /** A calendar date; `Valid` says which triples are real dates. */
  datatype Date = Date(year: int, month: int, day: int)

  /** One calendar month's share of the walk: from `start` to the month's last day. */
  datatype Period = Period(start: Date, end: Date)

  /** The Gregorian leap rule. */
  predicate IsLeapYear(year: int)
  {
    year % 4 == 0 && (year % 100 != 0 || year % 400 == 0)
  }

  function DaysInMonth(year: int, month: int): (n: int)
    requires 1 <= month <= 12
    ensures 28 <= n <= 31
    ensures month == 2 ==> (n == 29 <==> IsLeapYear(year))
    ensures n == 31 <==> month in {1, 3, 5, 7, 8, 10, 12}
  {
    if month == 2 then (if IsLeapYear(year) then 29 else 28)
    else if month == 4 || month == 6 || month == 9 || month == 11 then 30
    else 31
  }

  predicate Valid(d: Date)
  {
    1 <= d.month <= 12 && 1 <= d.day <= DaysInMonth(d.year, d.month)
  }

  /** Chronological order: by year, then month, then day. */
  predicate Before(a: Date, b: Date)
  {
    a.year < b.year || (a.year == b.year && (a.month < b.month || (a.month == b.month && a.day < b.day)))
  }

  predicate NotAfter(a: Date, b: Date)
  {
    !Before(b, a)
  }

  /** Number of whole months from January of year 0 to the date's month. */
  function MonthIndex(d: Date): int
  {
    d.year * 12 + d.month - 1
  }

  /** The following day. */
  function NextDay(d: Date): (r: Date)
    requires Valid(d)
    ensures Valid(r) && Before(d, r)
  {
    if d.day < DaysInMonth(d.year, d.month) then Date(d.year, d.month, d.day + 1)
    else if d.month < 12 then Date(d.year, d.month + 1, 1)
    else Date(d.year + 1, 1, 1)
  }

  /** The preceding day, as `NaiveDate::pred_opt` gives it. */
  function PrevDay(d: Date): (r: Date)
    requires Valid(d)
    ensures Valid(r) && Before(r, d)
  {
    if d.day > 1 then Date(d.year, d.month, d.day - 1)
    else if d.month > 1 then Date(d.year, d.month - 1, DaysInMonth(d.year, d.month - 1))
    else Date(d.year - 1, 12, 31)
  }

  /** Going forward one day and back one day are inverses. */
  lemma NextPrevInverse(d: Date)
    requires Valid(d)
    ensures NextDay(PrevDay(d)) == d
    ensures PrevDay(NextDay(d)) == d
  {
  }

  /** No valid date lies strictly between a date and the next day. */
  lemma NextDayIsImmediate(d: Date, x: Date)
    requires Valid(d) && Valid(x) && Before(d, x)
    ensures NotAfter(NextDay(d), x)
  {
  }

  /** The first day of the month after the date's month. */
  function FirstDayNextMonth(d: Date): (r: Date)
    requires Valid(d)
    ensures Valid(r) && r.day == 1 && Before(d, r)
    ensures MonthIndex(r) == MonthIndex(d) + 1
  {
    if d.month == 12 then Date(d.year + 1, 1, 1)
    else Date(d.year, d.month + 1, 1)
  }

  /** The last day of the date's month: the day before the first of the next. */
  function LastDayOfMonth(d: Date): (r: Date)
    requires Valid(d)
    ensures Valid(r) && r.year == d.year && r.month == d.month
    ensures r.day == DaysInMonth(d.year, d.month)
    ensures NotAfter(d, r)
  {
    PrevDay(FirstDayNextMonth(d))
  }

  /** The day after a month's last day is the first of the next month. */
  lemma DayAfterLastDayOfMonth(d: Date)
    requires Valid(d)
    ensures NextDay(LastDayOfMonth(d)) == FirstDayNextMonth(d)
  {
    NextPrevInverse(FirstDayNextMonth(d));
  }

  /** Later dates never lie in earlier months. */
  lemma MonthIndexMonotone(a: Date, b: Date)
    requires Valid(a) && Valid(b)
    ensures NotAfter(a, b) ==> MonthIndex(a) <= MonthIndex(b)
    ensures MonthIndex(a) < MonthIndex(b) ==> Before(a, b)
  {
  }

  /**
   * The first of the next month is the earliest first-of-a-month strictly
   * after the date.
   */
  lemma FirstDayNextMonthIsEarliest(d: Date, x: Date)
    requires Valid(d) && Valid(x) && x.day == 1 && Before(d, x)
    ensures NotAfter(FirstDayNextMonth(d), x)
  {
    MonthIndexMonotone(d, x);
  }

  /** A period covers a non-empty part of one calendar month, up to its last day. */
  predicate PeriodInOneMonth(p: Period)
  {
    Valid(p.start) && Valid(p.end)
    && p.start.year == p.end.year && p.start.month == p.end.month
    && NotAfter(p.start, p.end)
    && p.end.day == DaysInMonth(p.end.year, p.end.month)
  }

  /** The second period starts on the day after the first one ends. */
  predicate Contiguous(p: Period, q: Period)
  {
    Valid(p.end) && NextDay(p.end) == q.start
  }

  /**
   * The historical walk: from `startDate` up to `currentDate` (the caller's
   * "today"), one period per calendar month, each ending on its month's last
   * day, the first starting at `startDate` and every later one on the 1st.
   */
  method GetHistoricalData(startDate: Date, currentDate: Date) returns (periods: seq<Period>)
    requires Valid(startDate) && Valid(currentDate)
    ensures |periods| == if NotAfter(startDate, currentDate)
                         then MonthIndex(currentDate) - MonthIndex(startDate) + 1 else 0
    ensures |periods| > 0 ==> periods[0].start == startDate
    ensures forall i :: 0 <= i < |periods| ==> PeriodInOneMonth(periods[i])
    ensures forall i :: 0 <= i < |periods| ==> MonthIndex(periods[i].start) == MonthIndex(startDate) + i
    ensures forall i :: 1 <= i < |periods| ==> periods[i].start.day == 1
    ensures forall i :: 1 <= i < |periods| ==> Contiguous(periods[i - 1], periods[i])
  {
    periods := [];
    var start := startDate;
    while NotAfter(start, currentDate)
      invariant Valid(start)
      invariant |periods| == MonthIndex(start) - MonthIndex(startDate)
      invariant |periods| > 0 ==> periods[0].start == startDate && NotAfter(startDate, currentDate)
      invariant |periods| == 0 ==> start == startDate
      invariant |periods| > 0 ==> start.day == 1 && Contiguous(periods[|periods| - 1], Period(start, start))
      invariant |periods| > 0 ==> MonthIndex(start) <= MonthIndex(currentDate) + 1
      invariant forall i :: 0 <= i < |periods| ==> PeriodInOneMonth(periods[i])
      invariant forall i :: 0 <= i < |periods| ==> MonthIndex(periods[i].start) == MonthIndex(startDate) + i
      invariant forall i :: 1 <= i < |periods| ==> periods[i].start.day == 1
      invariant forall i :: 1 <= i < |periods| ==> Contiguous(periods[i - 1], periods[i])
      decreases MonthIndex(currentDate) - MonthIndex(start)
    {
      MonthIndexMonotone(start, currentDate);
      var end := LastDayOfMonth(start);
      DayAfterLastDayOfMonth(start);
      periods := periods + [Period(start, end)];
      start := FirstDayNextMonth(start);
    }
  }
}
