/** The date calculator: which month to process, which of its Sundays are
    candidate episode dates, and the YYYYMMDD keys those dates are known by. */
module DateCalculator {
  import opened Calendar
  import opened Decimal
  import opened Subsequences

  // ---------------------------------------------------------------------
  // Target month

  datatype Period = Period(month: int, year: int)

  /** Months elapsed since January of year 0; consecutive months differ by one. */
  function MonthIndex(p: Period): int {
    p.year * 12 + p.month - 1
  }

  /** How far back the flags ask to go: "previous month" wins over the count. */
  function MonthsBack(usePreviousMonth: bool, previousMonths: nat): nat {
    if usePreviousMonth then 1 else previousMonths
  }

  /** Going back `delta` months with the code's wrap rule: any result at or below
      zero becomes December of the previous year, however far back was asked. */
  function StepBack(p: Period, delta: nat): (r: Period)
    requires 1 <= p.month <= 12
    ensures 1 <= r.month <= 12
    ensures delta <= p.month ==> MonthIndex(r) == MonthIndex(p) - delta
    ensures delta >= p.month ==> r.month == 12 && r.year == p.year - 1
    ensures delta > p.month ==> MonthIndex(r) > MonthIndex(p) - delta
  {
    var month := p.month - delta;
    if month <= 0 then Period(12, p.year - 1) else Period(month, p.year)
  }

  /** Going back `delta` months in true month arithmetic, as the wrap rule is
      evidently meant to: the year absorbs every twelve months. */
  function StepBackModular(p: Period, delta: nat): (r: Period)
    ensures 1 <= r.month <= 12
    ensures MonthIndex(r) == MonthIndex(p) - delta
  {
    var t := MonthIndex(p) - delta;
    Period(t % 12 + 1, t / 12)
  }

  /** A month index names one period. */
  lemma MonthIndexInjective(p: Period, q: Period)
    requires 1 <= p.month <= 12 && 1 <= q.month <= 12
    requires MonthIndex(p) == MonthIndex(q)
    ensures p == q
  {
  }

  /** Up to one wrap into the previous year, the code's rule is exact. */
  lemma StepBackExactUpToOneWrap(p: Period, delta: nat)
    requires 1 <= p.month <= 12 && delta <= p.month
    ensures StepBack(p, delta) == StepBackModular(p, delta)
  {
    MonthIndexInjective(StepBack(p, delta), StepBackModular(p, delta));
  }

  /** Five months back from March 2024 should be October 2023; the code gives
      December 2023. Fourteen back from February 2024 should be December 2022;
      the code gives December 2023. */
  lemma StepBackLosesMonthsPastOneWrap()
    ensures StepBack(Period(3, 2024), 5) == Period(12, 2023)
    ensures StepBackModular(Period(3, 2024), 5) == Period(10, 2023)
    ensures StepBack(Period(2, 2024), 14) == Period(12, 2023)
    ensures StepBackModular(Period(2, 2024), 14) == Period(12, 2022)
  {
  }

  /** The target month and year for the current month and the two flags. */
  method AdjustForPast(curMonth: int, curYear: int, usePreviousMonth: bool, previousMonths: nat)
    returns (month: int, year: int)
    requires 1 <= curMonth <= 12
    ensures 1 <= month <= 12
    ensures !usePreviousMonth && previousMonths == 0 ==> month == curMonth && year == curYear
    ensures Period(month, year) == StepBack(Period(curMonth, curYear), MonthsBack(usePreviousMonth, previousMonths))
  {
    if !usePreviousMonth && previousMonths == 0 {
      return curMonth, curYear;
    }
    var monthsDelta := 0;
    if usePreviousMonth {
      monthsDelta := 1;
    } else if previousMonths != 0 {
      monthsDelta := previousMonths;
    }
    month, year := curMonth - monthsDelta, curYear;
    if month <= 0 {
      month := 12;
      year := year - 1;
    }
  }

  // ---------------------------------------------------------------------
  // Sundays of a month

  /** s lists, in ascending order of day, exactly the Sundays of month m of
      year y whose day is below `bound`. */
  ghost predicate SundaysBelow(y: int, m: int, bound: int, s: seq<Date>)
    requires 1 <= m <= 12
  {
    && (forall i :: 0 <= i < |s| ==>
          s[i].year == y && s[i].month == m && 1 <= s[i].day < bound
          && s[i].day <= DaysInMonth(y, m) && Weekday(s[i]) == Sunday)
    && (forall i, j :: 0 <= i < j < |s| ==> s[i].day < s[j].day)
    && (forall d :: 1 <= d < bound && d <= DaysInMonth(y, m) && Weekday(Date(y, m, d)) == Sunday
          ==> Date(y, m, d) in s)
  }

  /** s lists every Sunday of month m of year y, in ascending order. */
  ghost predicate SundaysOfMonth(y: int, m: int, s: seq<Date>)
    requires 1 <= m <= 12
  {
    SundaysBelow(y, m, DaysInMonth(y, m) + 1, s)
  }

  /** Looking at one more day extends the list by that day when it is a Sunday. */
  lemma SundaysBelowStep(y: int, m: int, b: int, s: seq<Date>)
    requires 1 <= m <= 12 && 1 <= b <= DaysInMonth(y, m) && SundaysBelow(y, m, b, s)
    ensures SundaysBelow(y, m, b + 1, if Weekday(Date(y, m, b)) == Sunday then s + [Date(y, m, b)] else s)
  {
    var t := if Weekday(Date(y, m, b)) == Sunday then s + [Date(y, m, b)] else s;
    forall d | 1 <= d < b + 1 && d <= DaysInMonth(y, m) && Weekday(Date(y, m, d)) == Sunday
      ensures Date(y, m, d) in t
    {
      if d < b {
        assert Date(y, m, d) in s;
      } else {
        assert t[|t| - 1] == Date(y, m, b);
      }
    }
  }

  /** The Sundays of a month, found by walking from its first day to its last. */
  method FindSundays(month: int, year: int) returns (sundays: seq<Date>)
    requires 1 <= month <= 12
    ensures SundaysOfMonth(year, month, sundays)
  {
    var day := Date(year, month, 1);
    var lastDay := Date(year, month, DaysInMonth(year, month));
    sundays := [];
    while true
      invariant day.year == year && day.month == month && 1 <= day.day <= lastDay.day
      invariant SundaysBelow(year, month, day.day, sundays)
      decreases lastDay.day - day.day
    {
      SundaysBelowStep(year, month, day.day, sundays);
      if Weekday(day) == Sunday {
        sundays := sundays + [day];
      }
      if day == lastDay {
        break;
      }
      day := NextDay(day);
    }
  }

  /** The day of the first Sunday of a month. */
  function FirstSunday(y: int, m: int): (f: int)
    requires 1 <= m <= 12
    ensures 1 <= f <= 7
  {
    var r := (DaysBeforeYear(y) + DaysBeforeMonth(y, m)) % 7;
    if r == 0 then 7 else 7 - r
  }

  /** The Sundays of a month are the days congruent to its first Sunday modulo 7. */
  lemma SundayIff(y: int, m: int, d: int)
    requires 1 <= m <= 12 && 1 <= d <= DaysInMonth(y, m)
    ensures Weekday(Date(y, m, d)) == Sunday <==> (d - FirstSunday(y, m)) % 7 == 0
  {
    var f := FirstSunday(y, m);
    var base := DaysBeforeYear(y) + DaysBeforeMonth(y, m);
    assert Weekday(Date(y, m, f)) == (base + f) % 7;
    assert base == 7 * (base / 7) + base % 7;
    assert (base + f) % 7 == 0;
    SameMonthWeekday(y, m, f, d);
  }

  /** A day congruent to f modulo 7 that is past f + 7 (i - 1) is at least f + 7 i. */
  lemma NextCongruent(f: int, dd: int, i: int)
    requires (dd - f) % 7 == 0 && dd > f + 7 * (i - 1)
    ensures dd >= f + 7 * i
  {
    var q := (dd - f) / 7;
    assert dd - f == 7 * q;
  }

  lemma SevenMultiple(i: int)
    ensures (7 * i) % 7 == 0
  {
  }

  /** The i-th entry of such a list falls on day FirstSunday + 7 i. */
  lemma {:induction false} SundayAt(y: int, m: int, bound: int, s: seq<Date>, i: int)
    requires 1 <= m <= 12 && SundaysBelow(y, m, bound, s) && 0 <= i < |s|
    ensures s[i] == Date(y, m, FirstSunday(y, m) + 7 * i)
  {
    var f := FirstSunday(y, m);
    var dd := s[i].day;
    SundayIff(y, m, dd);
    if i > 0 {
      SundayAt(y, m, bound, s, i - 1);
      assert s[i - 1].day < dd;
    }
    NextCongruent(f, dd, i);
    var e := f + 7 * i;
    SevenMultiple(i);
    assert e - f == 7 * i;
    SundayIff(y, m, e);
    assert Date(y, m, e) in s;
    var j :| 0 <= j < |s| && s[j] == Date(y, m, e);
    assert j >= i by {
      if i > 0 {
        assert s[i - 1].day < s[j].day;
      }
    }
  }

  /** A list of the Sundays below a bound is determined by the month: the
      i-th is day FirstSunday + 7 i, and the one after the last would fall on
      or after the bound or past the end of the month. */
  lemma SundaysBelowExact(y: int, m: int, bound: int, s: seq<Date>)
    requires 1 <= m <= 12 && SundaysBelow(y, m, bound, s)
    ensures forall i :: 0 <= i < |s| ==> s[i] == Date(y, m, FirstSunday(y, m) + 7 * i)
    ensures FirstSunday(y, m) + 7 * |s| >= bound || FirstSunday(y, m) + 7 * |s| > DaysInMonth(y, m)
  {
    var f, last := FirstSunday(y, m), DaysInMonth(y, m);
    var e := f + 7 * |s|;
    if e < bound && e <= last {
      SundayIff(y, m, e);
      assert Date(y, m, e) in s;
      var j :| 0 <= j < |s| && s[j] == Date(y, m, e);
      SundayAt(y, m, bound, s, j);
      assert false;
    }
    forall i | 0 <= i < |s| ensures s[i] == Date(y, m, f + 7 * i) {
      SundayAt(y, m, bound, s, i);
    }
  }

  /** Every month has four or five Sundays, one week apart, the first of them
      in the month's first seven days. */
  lemma SundaysOfMonthShape(y: int, m: int, s: seq<Date>)
    requires 1 <= m <= 12 && SundaysOfMonth(y, m, s)
    ensures 4 <= |s| <= 5
    ensures s[0].day <= 7
    ensures forall i :: 0 < i < |s| ==> s[i].day == s[i - 1].day + 7
  {
    var f, last := FirstSunday(y, m), DaysInMonth(y, m);
    SundaysBelowExact(y, m, last + 1, s);
    assert |s| >= 4;
    assert s[|s| - 1].day == f + 7 * (|s| - 1) <= last;
  }

  /** March 2024 starts on a Friday, so its first Sunday is the 3rd. */
  lemma FirstSundayOfMarch2024()
    ensures FirstSunday(2024, 3) == 3
  {
    assert DaysBeforeYear(2024) == 738885;
    assert DaysBeforeMonth(2024, 3) == 60;
  }

  /** The Sundays of March 2024 are the 3rd, 10th, 17th, 24th and 31st. */
  lemma SundaysOfMarch2024(s: seq<Date>)
    requires SundaysOfMonth(2024, 3, s)
    ensures s == [Date(2024, 3, 3), Date(2024, 3, 10), Date(2024, 3, 17), Date(2024, 3, 24), Date(2024, 3, 31)]
  {
    FirstSundayOfMarch2024();
    SundaysBelowExact(2024, 3, 32, s);
    SundaysOfMonthShape(2024, 3, s);
  }

  // ---------------------------------------------------------------------
  // Trimming to today

  /** Whether a date's day of the month is not after `today`. */
  function OnOrBefore(today: int): Date -> bool {
    (d: Date) => d.day <= today
  }

  /** The Sundays whose day of the month is at most today, in their order. */
  method FilterSundaysUntilToday(sundays: seq<Date>, today: int) returns (filtered: seq<Date>)
    ensures filtered == Filter(sundays, OnOrBefore(today))
  {
    filtered := [];
    for i := 0 to |sundays|
      invariant filtered == Filter(sundays[..i], OnOrBefore(today))
    {
      assert sundays[..i + 1][..i] == sundays[..i];
      if sundays[i].day <= today {
        filtered := filtered + [sundays[i]];
      }
    }
    assert sundays[..|sundays|] == sundays;
  }

  /** Trimming the Sundays of a month to today leaves exactly the Sundays up
      to today, still ascending: none of them is after today. */
  lemma TrimmedSundays(y: int, m: int, s: seq<Date>, today: int)
    requires 1 <= m <= 12 && SundaysOfMonth(y, m, s)
    ensures SundaysBelow(y, m, today + 1, Filter(s, OnOrBefore(today)))
  {
    var keep := OnOrBefore(today);
    var r, ix := Filter(s, keep), KeptIndices(s, keep);
    FilterAtKeptIndices(s, keep);
    forall i | 0 <= i < |r|
      ensures r[i].year == y && r[i].month == m && 1 <= r[i].day < today + 1
      ensures r[i].day <= DaysInMonth(y, m) && Weekday(r[i]) == Sunday
    {
      assert r[i] == s[ix[i]] && keep(s[ix[i]]);
    }
    forall i, j | 0 <= i < j < |r| ensures r[i].day < r[j].day {
      assert r[i] == s[ix[i]] && r[j] == s[ix[j]];
    }
    forall d | 1 <= d < today + 1 && d <= DaysInMonth(y, m) && Weekday(Date(y, m, d)) == Sunday
      ensures Date(y, m, d) in r
    {
      assert Date(y, m, d) in s;
      FilterMembership(s, keep, Date(y, m, d));
    }
  }

  /** On 20 March 2024 the candidate dates of the month are the 3rd, 10th and
      17th; the 24th and 31st are still to come. */
  lemma TrimmedMarch2024(s: seq<Date>)
    requires SundaysOfMonth(2024, 3, s)
    ensures Filter(s, OnOrBefore(20)) == [Date(2024, 3, 3), Date(2024, 3, 10), Date(2024, 3, 17)]
  {
    var r := Filter(s, OnOrBefore(20));
    TrimmedSundays(2024, 3, s, 20);
    FirstSundayOfMarch2024();
    SundaysBelowExact(2024, 3, 21, r);
    assert |r| >= 3;
    assert r[|r| - 1].day == 3 + 7 * (|r| - 1) < 21;
  }

  // ---------------------------------------------------------------------
  // Date keys

  /** A date in Go's layout "20060102": year, month and day as zero-padded
      fields of four, two and two digits. */
  function FormatSunday(d: Date): string {
    LayoutField(d.year, 4) + LayoutField(d.month, 2) + LayoutField(d.day, 2)
  }

  /** Four, two and two digits side by side are eight digits whose slices
      give the three parts back. */
  lemma KeyFields(yy: string, mm: string, dd: string)
    requires |yy| == 4 && |mm| == 2 && |dd| == 2
    requires AllDigits(yy) && AllDigits(mm) && AllDigits(dd)
    ensures var k := yy + mm + dd;
      |k| == 8 && AllDigits(k) && k[..4] == yy && k[4..6] == mm && k[6..] == dd
  {
    AllDigitsAppend(yy, mm);
    AllDigitsAppend(yy + mm, dd);
    var k := yy + mm + dd;
    assert k[..4] == yy;
    assert k[4..6] == mm;
    assert k[6..] == dd;
  }

  /** For a year of at most four digits the key is eight digits that read
      back as year, month and day (ISO 8601 basic calendar date). */
  lemma FormatSundayDigits(d: Date)
    requires ValidDate(d) && 0 <= d.year <= 9999
    ensures |FormatSunday(d)| == 8 && AllDigits(FormatSunday(d))
    ensures Value(FormatSunday(d)[..4]) == d.year
    ensures Value(FormatSunday(d)[4..6]) == d.month
    ensures Value(FormatSunday(d)[6..]) == d.day
  {
    assert Pow10(2) == 100 && Pow10(4) == 10000;
    var yy, mm, dd := PadNat(d.year, 4), PadNat(d.month, 2), PadNat(d.day, 2);
    PadNatExact(d.year, 4);
    PadNatExact(d.month, 2);
    PadNatExact(d.day, 2);
    assert FormatSunday(d) == yy + mm + dd;
    KeyFields(yy, mm, dd);
  }

  /** Distinct valid dates have distinct keys, whatever the year. */
  lemma FormatSundayInjective(a: Date, b: Date)
    requires ValidDate(a) && ValidDate(b)
    requires FormatSunday(a) == FormatSunday(b)
    ensures a == b
  {
    assert Pow10(2) == 100;
    PadNatExact(a.month, 2);
    PadNatExact(a.day, 2);
    PadNatExact(b.month, 2);
    PadNatExact(b.day, 2);
    var sa, sb := FormatSunday(a), FormatSunday(b);
    var n := |sa|;
    assert sa[n - 2..] == PadNat(a.day, 2) && sb[n - 2..] == PadNat(b.day, 2);
    assert sa[n - 4..n - 2] == PadNat(a.month, 2) && sb[n - 4..n - 2] == PadNat(b.month, 2);
    assert sa[..n - 4] == LayoutField(a.year, 4) && sb[..n - 4] == LayoutField(b.year, 4);
    LayoutFieldInjective(a.year, b.year, 4);
  }

  /** The key of every date, in the order of the dates. */
  method FormatDays(days: seq<Date>) returns (formatted: seq<string>)
    ensures |formatted| == |days|
    ensures forall i :: 0 <= i < |days| ==> formatted[i] == FormatSunday(days[i])
  {
    formatted := [];
    for i := 0 to |days|
      invariant formatted == Map(days[..i], FormatSunday)
    {
      assert days[..i + 1][..i] == days[..i];
      formatted := formatted + [FormatSunday(days[i])];
    }
    assert days[..|days|] == days;
    MapAt(days, FormatSunday);
  }

  /** Distinct valid dates keep distinct keys after formatting. */
  lemma FormattedKeysDistinct(days: seq<Date>, formatted: seq<string>)
    requires |formatted| == |days|
    requires forall i :: 0 <= i < |days| ==> ValidDate(days[i]) && formatted[i] == FormatSunday(days[i])
    requires forall i, j :: 0 <= i < j < |days| ==> days[i] != days[j]
    ensures forall i, j :: 0 <= i < j < |days| ==> formatted[i] != formatted[j]
  {
    forall i, j | 0 <= i < j < |days| ensures formatted[i] != formatted[j] {
      if formatted[i] == formatted[j] {
        FormatSundayInjective(days[i], days[j]);
      }
    }
  }

  // ---------------------------------------------------------------------
  // The date steps of a run

  /** The candidate dates of a run started on `now` and their keys: the
      Sundays of the target month, trimmed to today when no offset is asked. */
  method CandidateDates(now: Date, usePreviousMonth: bool, previousMonths: nat)
    returns (sundays: seq<Date>, keys: seq<string>)
    requires 1 <= now.month <= 12
    ensures !usePreviousMonth && previousMonths == 0 ==>
              SundaysBelow(now.year, now.month, now.day + 1, sundays)
    ensures var target := StepBack(Period(now.month, now.year), MonthsBack(usePreviousMonth, previousMonths));
            usePreviousMonth || previousMonths != 0 ==> SundaysOfMonth(target.year, target.month, sundays)
    ensures |keys| == |sundays| && forall i :: 0 <= i < |sundays| ==> keys[i] == FormatSunday(sundays[i])
  {
    var month, year := AdjustForPast(now.month, now.year, usePreviousMonth, previousMonths);
    sundays := FindSundays(month, year);
    if !usePreviousMonth && previousMonths == 0 {
      TrimmedSundays(year, month, sundays, now.day);
      sundays := FilterSundaysUntilToday(sundays, now.day);
    }
    keys := FormatDays(sundays);
  }
}
