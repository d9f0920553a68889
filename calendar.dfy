/**
 * Proleptic Gregorian calendar dates, as Go's time package counts them, and
 * the one piece of calendar arithmetic the schedule uses: adding one month
 * the way time.Time.AddDate(0, 1, 0) does, normalising a day that the
 * next month does not have into the month after it.
 */
module Calendar {
  import opened Arith

  const MonthsInYear := 12

  /** A parsed instant, read in its own zone: the calendar fields, the time of day and the zone offset. */
  datatype Timestamp = Timestamp(
    year: int, month: int, day: int,
    hour: int, minute: int, second: int, nanosecond: int,
    offsetSeconds: int)

  /** A calendar day; in a schedule entry it stands for midnight UTC of that day. */
  datatype Date = Date(year: int, month: int, day: int)

  /** The zero value of a Go time.Time: January 1 of year 1, 00:00:00 UTC. */
  const ZeroTime := Timestamp(1, 1, 1, 0, 0, 0, 0, 0)

  predicate IsLeapYear(year: int) {
    year % 4 == 0 && (year % 100 != 0 || year % 400 == 0)
  }

  function DaysIn(year: int, month: int): (n: int)
    requires 1 <= month <= 12
    ensures 28 <= n <= 31
    ensures month == 12 ==> n == 31
  {
    if month == 2 then (if IsLeapYear(year) then 29 else 28)
    else if month == 4 || month == 6 || month == 9 || month == 11 then 30
    else 31
  }

  function YearLength(year: int): (n: int) {
    if IsLeapYear(year) then 366 else 365
  }

  predicate ValidDate(d: Date) {
    1 <= d.month <= 12 && 1 <= d.day <= DaysIn(d.year, d.month)
  }

  /** The calendar day of t in t's own zone, with the time of day dropped. */
  function Midnight(t: Timestamp): (d: Date) {
    Date(t.year, t.month, t.day)
  }

  /** Days from January 1 to the first of month m (m == 13: the whole year). */
  function DaysBeforeMonth(year: int, m: int): (n: int)
    requires 1 <= m <= 13
  {
    var common :=
      if m == 1 then 0 else if m == 2 then 31 else if m == 3 then 59
      else if m == 4 then 90 else if m == 5 then 120 else if m == 6 then 151
      else if m == 7 then 181 else if m == 8 then 212 else if m == 9 then 243
      else if m == 10 then 273 else if m == 11 then 304 else if m == 12 then 334
      else 365;
    if m > 2 && IsLeapYear(year) then common + 1 else common
  }

  /** Days from January 1 of year 1 to January 1 of the given year. */
  function DaysBeforeYear(year: int): (n: int) {
    var y := year - 1;
    365 * y + y / 4 - y / 100 + y / 400
  }

  /** The number of days from January 1 of year 1 to d. */
  function DayNumber(d: Date): (n: int)
    requires 1 <= d.month <= 12
  {
    DaysBeforeYear(d.year) + DaysBeforeMonth(d.year, d.month) + d.day - 1
  }

  /** The first day of the month after d's month. */
  function FirstOfNextMonth(d: Date): (n: Date)
    requires 1 <= d.month <= MonthsInYear
    ensures ValidDate(n) && n.day == 1
  {
    if d.month == MonthsInYear then Date(d.year + 1, 1, 1)
    else Date(d.year, d.month + 1, 1)
  }

  /**
   * One calendar month after d, as AddDate(0, 1, 0) computes it: the same
   * day number in the next month, where a day that month lacks carries
   * over into the month after (January 31 becomes March 3, or March 2 in a
   * leap year).
   */
  function AddMonth(d: Date): (r: Date)
    requires ValidDate(d)
    ensures ValidDate(r)
    // a day every month has is kept, and only the month (and year) advance
    ensures d.day <= 28 ==> r == FirstOfNextMonth(d).(day := d.day)
  {
    var n := FirstOfNextMonth(d);
    var len := DaysIn(n.year, n.month);
    if d.day <= len then n.(day := d.day)
    else Date(n.year, n.month + 1, d.day - len)
  }

  /**
   * AddMonth(d) is the day d.day - 1 days after the first of the next month,
   * which is how Go normalises an out-of-range day; by DayNumberInjective
   * it is the only valid date that is.
   */
  lemma AddMonthDayNumber(d: Date)
    requires ValidDate(d)
    ensures DayNumber(AddMonth(d)) == DayNumber(FirstOfNextMonth(d)) + d.day - 1
  {
  }

  /** AddMonth applied k times, as the schedule's loop applies it. */
  function AddMonths(d: Date, k: nat): (r: Date)
    requires ValidDate(d)
    ensures ValidDate(r)
  {
    if k == 0 then d else AddMonth(AddMonths(d, k - 1))
  }

  /** k months after d by month arithmetic alone, keeping d's day. */
  function MonthsLater(d: Date, k: nat): (r: Date) {
    var index := d.year * MonthsInYear + (d.month - 1) + k;
    Date(index / MonthsInYear, index % MonthsInYear + 1, d.day)
  }

  /** From a day that every month has, k steps of AddMonth land on the same day k months later. */
  lemma {:induction false} AddMonthsKeepsDay(d: Date, k: nat)
    requires ValidDate(d) && d.day <= 28
    ensures AddMonths(d, k) == MonthsLater(d, k)
  {
    if k > 0 {
      AddMonthsKeepsDay(d, k - 1);
      var prev := AddMonths(d, k - 1);
      var index := d.year * MonthsInYear + (d.month - 1) + (k - 1);
      assert prev == Date(index / MonthsInYear, index % MonthsInYear + 1, d.day);
      NextMonthIndex(prev, index);
      assert AddMonths(d, k) == FirstOfNextMonth(prev).(day := d.day);
    } else {
      DivUnique(d.year * MonthsInYear + (d.month - 1), MonthsInYear, d.year, d.month - 1);
    }
  }

  lemma NextMonthIndex(d: Date, index: int)
    requires d.year == index / MonthsInYear && d.month == index % MonthsInYear + 1
    ensures FirstOfNextMonth(d) == Date((index + 1) / MonthsInYear, (index + 1) % MonthsInYear + 1, 1)
  {
    MonthIndexStep(index);
  }

  /** Moving a month index (year * 12 + month - 1) on by one. */
  lemma MonthIndexStep(index: int)
    ensures index % MonthsInYear == MonthsInYear - 1 ==>
      (index + 1) / MonthsInYear == index / MonthsInYear + 1 && (index + 1) % MonthsInYear == 0
    ensures index % MonthsInYear < MonthsInYear - 1 ==>
      (index + 1) / MonthsInYear == index / MonthsInYear && (index + 1) % MonthsInYear == index % MonthsInYear + 1
  {
    DivStep(index, MonthsInYear);
    var q, r := index / MonthsInYear, index % MonthsInYear;
    if r == MonthsInYear - 1 {
      DivUnique(index + 1, MonthsInYear, q + 1, 0);
    } else {
      DivUnique(index + 1, MonthsInYear, q, r + 1);
    }
  }

  lemma DaysBeforeYearStep(year: int)
    ensures DaysBeforeYear(year + 1) == DaysBeforeYear(year) + YearLength(year)
  {
    DivStep(year - 1, 4);
    DivStep(year - 1, 100);
    DivStep(year - 1, 400);
  }

  lemma {:induction false} DaysBeforeYearGrows(a: int, b: int)
    requires a < b
    ensures DaysBeforeYear(a) + YearLength(a) <= DaysBeforeYear(b)
    decreases b - a
  {
    DaysBeforeYearStep(a);
    if a + 1 < b {
      DaysBeforeYearGrows(a + 1, b);
    }
  }

  lemma DayNumberWithinYear(d: Date)
    requires ValidDate(d)
    ensures DaysBeforeYear(d.year) <= DayNumber(d) < DaysBeforeYear(d.year) + YearLength(d.year)
  {
  }

  /** Distinct valid dates have distinct day numbers. */
  lemma DayNumberInjective(a: Date, b: Date)
    requires ValidDate(a) && ValidDate(b)
    requires DayNumber(a) == DayNumber(b)
    ensures a == b
  {
    DayNumberWithinYear(a);
    DayNumberWithinYear(b);
    if a.year < b.year {
      DaysBeforeYearGrows(a.year, b.year);
    } else if b.year < a.year {
      DaysBeforeYearGrows(b.year, a.year);
    }
  }
}
