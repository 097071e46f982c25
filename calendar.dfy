/** Dates of the proleptic Gregorian calendar, as Go's time package counts
    them, reduced to (year, month, day) triples. */
module Calendar {

  datatype Date = Date(year: int, month: int, day: int)

  /** Go's time.Sunday; weekdays are numbered 0 (Sunday) to 6 (Saturday). */
  const Sunday: int := 0

  predicate IsLeapYear(y: int) {
    y % 4 == 0 && (y % 100 != 0 || y % 400 == 0)
  }

  function DaysInMonth(y: int, m: int): (n: int)
    requires 1 <= m <= 12
    ensures 28 <= n <= 31
  {
    if m == 2 then (if IsLeapYear(y) then 29 else 28)
    else if m == 4 || m == 6 || m == 9 || m == 11 then 30
    else 31
  }

  predicate ValidDate(d: Date) {
    1 <= d.month <= 12 && 1 <= d.day <= DaysInMonth(d.year, d.month)
  }

  /** Days in all years before y, counted from 1 January of year 1. */
  function DaysBeforeYear(y: int): int {
    var p := y - 1;
    365 * p + p / 4 - p / 100 + p / 400
  }

  /** Days in the months of year y before month m. */
  function DaysBeforeMonth(y: int, m: int): int
    requires 1 <= m <= 12
  {
    if m == 1 then 0 else DaysBeforeMonth(y, m - 1) + DaysInMonth(y, m - 1)
  }

  /** Days between 1 January of year 1 and d. */
  function DayNumber(d: Date): int
    requires ValidDate(d)
  {
    DaysBeforeYear(d.year) + DaysBeforeMonth(d.year, d.month) + d.day - 1
  }

  /** The day of the week; 1 January of year 1 was a Monday. */
  function Weekday(d: Date): (w: int)
    requires ValidDate(d)
    ensures 0 <= w < 7
  {
    (DayNumber(d) + 1) % 7
  }

  /** The calendar day after d, as Go's AddDate(0, 0, 1) normalises it. */
  function NextDay(d: Date): (n: Date)
    requires ValidDate(d)
    ensures ValidDate(n)
  {
    if d.day < DaysInMonth(d.year, d.month) then Date(d.year, d.month, d.day + 1)
    else if d.month < 12 then Date(d.year, d.month + 1, 1)
    else Date(d.year + 1, 1, 1)
  }

  /** Stepping from y - 1 to y crosses a multiple of k exactly when y is one. */
  lemma CrossesMultiple(y: int, k: int)
    requires k == 4 || k == 100 || k == 400
    ensures y / k - (y - 1) / k == if y % k == 0 then 1 else 0
  {
    var q, r := (y - 1) / k, (y - 1) % k;
    assert y - 1 == k * q + r && 0 <= r < k;
    if r == k - 1 {
      assert y == k * (q + 1) + 0;
    } else {
      assert y == k * q + (r + 1);
    }
  }

  lemma MultipleOfHundred(m: int)
    ensures (100 * m) % 100 == 0
  {
  }

  lemma MultipleOfFour(m: int)
    ensures (4 * m) % 4 == 0
  {
  }

  /** A multiple of 400 is a multiple of 100, which is a multiple of 4. */
  lemma CenturyMultiples(y: int)
    ensures y % 400 == 0 ==> y % 100 == 0
    ensures y % 100 == 0 ==> y % 4 == 0
  {
    if y % 400 == 0 {
      var q := y / 400;
      assert y == 100 * (4 * q);
      MultipleOfHundred(4 * q);
    }
    if y % 100 == 0 {
      var q := y / 100;
      assert y == 4 * (25 * q);
      MultipleOfFour(25 * q);
    }
  }

  /** A whole year holds 365 days, or 366 in a leap year. */
  lemma YearLength(y: int)
    ensures DaysBeforeYear(y + 1) - DaysBeforeYear(y) == if IsLeapYear(y) then 366 else 365
  {
    CrossesMultiple(y, 4);
    CrossesMultiple(y, 100);
    CrossesMultiple(y, 400);
    CenturyMultiples(y);
  }

  lemma ModSevenDiff(x: int, y: int)
    ensures x % 7 == y % 7 <==> (y - x) % 7 == 0
  {
    var qx, qy := x / 7, y / 7;
    assert x == 7 * qx + x % 7 && y == 7 * qy + y % 7;
    assert y - x == 7 * (qy - qx) + (y % 7 - x % 7);
  }

  /** Adding one commutes with reduction modulo 7. */
  lemma ModSevenSucc(n: int)
    ensures (n + 1) % 7 == (n % 7 + 1) % 7
  {
    var q := n / 7;
    assert n == 7 * q + n % 7;
    ModSevenDiff(n + 1, n % 7 + 1);
  }

  lemma DaysBeforeDecember(y: int)
    ensures DaysBeforeMonth(y, 12) + 31 == if IsLeapYear(y) then 366 else 365
  {
    var feb := DaysInMonth(y, 2);
    assert DaysBeforeMonth(y, 2) == 31;
    assert DaysBeforeMonth(y, 3) == 31 + feb;
    assert DaysBeforeMonth(y, 4) == 62 + feb;
    assert DaysBeforeMonth(y, 5) == 92 + feb;
    assert DaysBeforeMonth(y, 6) == 123 + feb;
    assert DaysBeforeMonth(y, 7) == 153 + feb;
    assert DaysBeforeMonth(y, 8) == 184 + feb;
    assert DaysBeforeMonth(y, 9) == 215 + feb;
    assert DaysBeforeMonth(y, 10) == 245 + feb;
    assert DaysBeforeMonth(y, 11) == 276 + feb;
    assert DaysBeforeMonth(y, 12) == 306 + feb;
  }

  lemma DayNumberOfNextDay(d: Date)
    requires ValidDate(d)
    ensures DayNumber(NextDay(d)) == DayNumber(d) + 1
  {
    var y, m := d.year, d.month;
    if d.day < DaysInMonth(y, m) {
    } else if m < 12 {
      assert DaysBeforeMonth(y, m + 1) == DaysBeforeMonth(y, m) + DaysInMonth(y, m);
    } else {
      YearLength(y);
      DaysBeforeDecember(y);
      assert DayNumber(NextDay(d)) == DaysBeforeYear(y + 1);
      assert DayNumber(d) == DaysBeforeYear(y) + DaysBeforeMonth(y, 12) + 30;
    }
  }

  /** The day after d is the next day number, so the weekday advances by one,
      across month and year ends alike. */
  lemma NextDayAdvances(d: Date)
    requires ValidDate(d)
    ensures DayNumber(NextDay(d)) == DayNumber(d) + 1
    ensures Weekday(NextDay(d)) == (Weekday(d) + 1) % 7
  {
    DayNumberOfNextDay(d);
    ModSevenSucc(DayNumber(d) + 1);
  }

  /** Within one month the weekday depends only on the day modulo 7. */
  lemma SameMonthWeekday(y: int, m: int, a: int, b: int)
    requires ValidDate(Date(y, m, a)) && ValidDate(Date(y, m, b))
    ensures Weekday(Date(y, m, a)) == Weekday(Date(y, m, b)) <==> (b - a) % 7 == 0
  {
    var base := DaysBeforeYear(y) + DaysBeforeMonth(y, m);
    assert Weekday(Date(y, m, a)) == (base + a) % 7;
    assert Weekday(Date(y, m, b)) == (base + b) % 7;
    ModSevenDiff(base + a, base + b);
  }
}
