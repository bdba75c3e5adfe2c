/** The calendar arithmetic of lib-clib/src/time.cpp: gmtime and mktime as the loops the code runs,
    proved against day counts, and proved to be inverse to each other. */
module Calendar {

  import opened Machine

  /** The first second of 2040, after which mktime answers -1. */
  const END_OF_MKTIME: int := 2_208_988_800

  /** The broken-down time; month and year are counted from 0 and from 1900. */
  datatype Tm = Tm(sec: int, min: int, hour: int, mday: int, mon: int, year: int, wday: int, yday: int)

  predicate IsLeapYear(year: int) {
    if year % 100 == 0 then year % 400 == 0 else year % 4 == 0
  }

  function DaysOfMonth(month: int, year: int): (days: int)
    requires 0 <= month < 12
    ensures 28 <= days <= 31
  {
    if month == 1 then if IsLeapYear(year) then 29 else 28
    else if month == 3 || month == 5 || month == 8 || month == 10 then 30
    else 31
  }

  function DaysOfYear(year: int): (days: int)
    ensures 365 <= days <= 366
  {
    if IsLeapYear(year) then 366 else 365
  }

  /* ---- Counting days ---- */

  // Days from 1 January 1970 to 1 January of a later year.
  function DaysBeforeYear(year: int): (days: int)
    requires 1970 <= year
    ensures 365 * (year - 1970) <= days <= 366 * (year - 1970)
    decreases year
  {
    if year == 1970 then 0 else DaysBeforeYear(year - 1) + DaysOfYear(year - 1)
  }

  function DaysBeforeMonth(month: int, year: int): (days: int)
    requires 0 <= month <= 12
    ensures 28 * month <= days <= 31 * month
    decreases month
  {
    if month == 0 then 0 else DaysBeforeMonth(month - 1, year) + DaysOfMonth(month - 1, year)
  }

  lemma MonthsFillYear(year: int)
    ensures DaysBeforeMonth(12, year) == DaysOfYear(year)
  {
    assert DaysBeforeMonth(2, year) == 31 + DaysOfMonth(1, year);
    assert DaysBeforeMonth(4, year) == DaysBeforeMonth(2, year) + 61;
    assert DaysBeforeMonth(6, year) == DaysBeforeMonth(4, year) + 61;
    assert DaysBeforeMonth(8, year) == DaysBeforeMonth(6, year) + 62;
    assert DaysBeforeMonth(10, year) == DaysBeforeMonth(8, year) + 61;
    assert DaysBeforeMonth(12, year) == DaysBeforeMonth(10, year) + 61;
  }

  lemma NextQuotient(year: int, n: int)
    requires 0 < n
    ensures year / n == (year - 1) / n + (if year % n == 0 then 1 else 0)
  {
    var q, r := (year - 1) / n, (year - 1) % n;
    assert year == n * q + (r + 1);
    if r + 1 == n {
      assert year == n * (q + 1);
      Unique(year, n, q + 1, 0);
    } else {
      Unique(year, n, q, r + 1);
    }
  }

  lemma CenturyIsFourth(year: int)
    ensures year % 400 == 0 ==> year % 100 == 0
    ensures year % 100 == 0 ==> year % 4 == 0
  {
  }

  /** The summed year lengths are the Gregorian leap-day count: a leap day every fourth year,
      none in the centuries, one again every fourth century. */
  lemma {:induction false} GregorianDays(year: int)
    requires 1970 <= year
    ensures DaysBeforeYear(year)
         == 365 * (year - 1970) + ((year - 1) / 4 - 492) - ((year - 1) / 100 - 19) + ((year - 1) / 400 - 4)
    decreases year
  {
    if year > 1970 {
      GregorianDays(year - 1);
      NextQuotient(year - 1, 4);
      NextQuotient(year - 1, 100);
      NextQuotient(year - 1, 400);
      CenturyIsFourth(year - 1);
    }
  }

  // The calendar fields name a day on or after 1 January 1970.
  predicate ValidDate(tm: Tm) {
    70 <= tm.year && 0 <= tm.mon < 12 && 1 <= tm.mday <= DaysOfMonth(tm.mon, 1900 + tm.year)
  }

  predicate ValidClock(tm: Tm) {
    0 <= tm.hour < 24 && 0 <= tm.min < 60 && 0 <= tm.sec < 60
  }

  function DayOfYear(tm: Tm): (day: int)
    requires ValidDate(tm)
    ensures 0 <= day
  {
    DaysBeforeMonth(tm.mon, 1900 + tm.year) + tm.mday - 1
  }

  function DayNumber(tm: Tm): (day: int)
    requires ValidDate(tm)
    ensures 0 <= day
  {
    DaysBeforeYear(1900 + tm.year) + DayOfYear(tm)
  }

  function Seconds(tm: Tm): int
    requires ValidDate(tm)
  {
    ((DayNumber(tm) * 24 + tm.hour) * 60 + tm.min) * 60 + tm.sec
  }

  /** Counted from March, whose length is 31, the months before the m-th have (153 * m + 2) / 5 days; January has 31,
      and February 28 or in a leap year 29. */
  lemma MonthDays(year: int)
    ensures DaysBeforeMonth(1, year) == 31
    ensures DaysBeforeMonth(2, year)
         == 31 + if year % 4 == 0 && (year % 100 != 0 || year % 400 == 0) then 29 else 28
    ensures forall m :: 0 <= m <= 10 ==> DaysBeforeMonth(m + 2, year) == DaysBeforeMonth(2, year) + (153 * m + 2) / 5
  {
    CenturyIsFourth(year);
    assert DaysBeforeMonth(3, year) == DaysBeforeMonth(2, year) + 31;
    assert DaysBeforeMonth(4, year) == DaysBeforeMonth(3, year) + 30;
    assert DaysBeforeMonth(5, year) == DaysBeforeMonth(4, year) + 31;
    assert DaysBeforeMonth(6, year) == DaysBeforeMonth(5, year) + 30;
    assert DaysBeforeMonth(7, year) == DaysBeforeMonth(6, year) + 31;
    assert DaysBeforeMonth(8, year) == DaysBeforeMonth(7, year) + 31;
    assert DaysBeforeMonth(9, year) == DaysBeforeMonth(8, year) + 30;
    assert DaysBeforeMonth(10, year) == DaysBeforeMonth(9, year) + 31;
    assert DaysBeforeMonth(11, year) == DaysBeforeMonth(10, year) + 30;
    assert DaysBeforeMonth(12, year) == DaysBeforeMonth(11, year) + 31;
  }

  // The day in closed form, from the year that begins with March and the month counted from there: 1 January 1970
  // is day 719468 of the era that begins with 1 March of the year 0.
  function CivilDay(year: int, mon: int, mday: int): int {
    var y, m := if mon < 2 then year - 1 else year, if mon < 2 then mon + 10 else mon - 2;
    365 * y + y / 4 - y / 100 + y / 400 + (153 * m + 2) / 5 + mday - 1 - 719468
  }

  // The lengths of the months, the common year's and February's in a leap year.
  predicate CivilDate(year: int, mon: int, mday: int) {
    && 0 <= mon < 12 && 1 <= mday
    && mday <= (if mon == 1 && year % 4 == 0 && (year % 100 != 0 || year % 400 == 0) then 29
                else [31, 28, 31, 30, 31, 30, 31, 31, 30, 31, 30, 31][mon])
  }

  /** The summed lengths give exactly the valid dates, and their days in closed form. */
  lemma DayNumberIsCivil(tm: Tm)
    ensures ValidDate(tm) <==> 70 <= tm.year && CivilDate(1900 + tm.year, tm.mon, tm.mday)
    ensures ValidDate(tm) ==> DayNumber(tm) == CivilDay(1900 + tm.year, tm.mon, tm.mday)
  {
    hide DaysBeforeMonth, DaysBeforeYear, CivilDay;
    var year := 1900 + tm.year;
    CenturyIsFourth(year);
    if ValidDate(tm) {
      hide IsLeapYear, DaysOfMonth, CivilDate;
      MonthStarts(year, tm.mon);
    }
  }

  // The first day of a month.
  lemma MonthStarts(year: int, mon: int)
    requires 1970 <= year && 0 <= mon < 12
    ensures forall mday :: DaysBeforeYear(year) + DaysBeforeMonth(mon, year) + mday - 1 == CivilDay(year, mon, mday)
  {
    hide DaysBeforeMonth, DaysBeforeYear, IsLeapYear;
    GregorianDays(year);
    MonthDays(year);
    NoneBefore(year);
    NextQuotient(year, 4);
    NextQuotient(year, 100);
    NextQuotient(year, 400);
    CenturyIsFourth(year);
    if mon >= 2 {
      assert DaysBeforeMonth((mon - 2) + 2, year) == DaysBeforeMonth(2, year) + (153 * (mon - 2) + 2) / 5;
    }
  }

  lemma NoneBefore(year: int)
    ensures DaysBeforeMonth(0, year) == 0
  {
  }

  /* ---- The calendar order ---- */

  predicate DateBefore(a: Tm, b: Tm) {
    a.year < b.year || (a.year == b.year && (a.mon < b.mon || (a.mon == b.mon && a.mday < b.mday)))
  }

  predicate SameDate(a: Tm, b: Tm) {
    a.year == b.year && a.mon == b.mon && a.mday == b.mday
  }

  predicate ClockBefore(a: Tm, b: Tm) {
    a.hour < b.hour || (a.hour == b.hour && (a.min < b.min || (a.min == b.min && a.sec < b.sec)))
  }

  predicate Before(a: Tm, b: Tm) {
    DateBefore(a, b) || (SameDate(a, b) && ClockBefore(a, b))
  }

  lemma {:induction false} YearsAddUp(year: int, later: int)
    requires 1970 <= year < later
    ensures DaysBeforeYear(year) + DaysOfYear(year) <= DaysBeforeYear(later)
    decreases later
  {
    if year + 1 < later {
      YearsAddUp(year, later - 1);
    }
  }

  lemma {:induction false} MonthsAddUp(month: int, later: int, year: int)
    requires 0 <= month < later <= 12
    ensures DaysBeforeMonth(month, year) + DaysOfMonth(month, year) <= DaysBeforeMonth(later, year)
    decreases later
  {
    if month + 1 < later {
      MonthsAddUp(month, later - 1, year);
    }
  }

  lemma DayOfYearFits(tm: Tm)
    requires ValidDate(tm)
    ensures DayOfYear(tm) < DaysOfYear(1900 + tm.year)
  {
    hide IsLeapYear, DaysOfMonth, DaysOfYear;
    MonthsAddUp(tm.mon, 12, 1900 + tm.year);
    MonthsFillYear(1900 + tm.year);
  }

  lemma LaterDate(a: Tm, b: Tm)
    requires ValidDate(a) && ValidDate(b) && DateBefore(a, b)
    ensures DayNumber(a) < DayNumber(b)
  {
    hide IsLeapYear, DaysOfMonth, DaysOfYear;
    if a.year < b.year {
      DayOfYearFits(a);
      YearsAddUp(1900 + a.year, 1900 + b.year);
    } else if a.mon < b.mon {
      MonthsAddUp(a.mon, b.mon, 1900 + a.year);
    }
  }

  lemma SameDay(a: Tm, b: Tm)
    requires ValidDate(a) && ValidDate(b) && SameDate(a, b)
    ensures DayNumber(a) == DayNumber(b)
  {
  }

  lemma LaterSeconds(a: Tm, b: Tm)
    requires ValidDate(a) && ValidDate(b) && ValidClock(a) && ValidClock(b) && Before(a, b)
    ensures Seconds(a) < Seconds(b)
  {
    hide IsLeapYear, DaysOfMonth, DayNumber;
    if DateBefore(a, b) {
      LaterDate(a, b);
    } else {
      SameDay(a, b);
    }
  }

  /* ---- mktime ---- */

  // The fields mktime accepts.
  predicate Accepted(tm: Tm) {
    tm.year <= 139 && ValidDate(tm) && ValidClock(tm)
  }

  // What mktime answers.
  function MkTime(tm: Tm): int {
    if Accepted(tm) then Seconds(tm) else -1
  }

  lemma DaysBefore2040()
    ensures DaysBeforeYear(2040) == END_OF_MKTIME / 86400
  {
    hide DaysBeforeYear;
    GregorianDays(2040);
  }

  lemma LastMkTimeYear(tm: Tm)
    requires ValidDate(tm)
    ensures DayNumber(tm) < END_OF_MKTIME / 86400 <==> tm.year <= 139
  {
    hide IsLeapYear, DaysOfMonth, DaysOfYear, DayOfYear;
    DaysBefore2040();
    DayOfYearFits(tm);
    if tm.year <= 139 {
      YearsAddUp(1900 + tm.year, 2040);
    } else if tm.year > 140 {
      YearsAddUp(2040, 1900 + tm.year);
    }
  }

  lemma AcceptedRange(tm: Tm)
    requires ValidDate(tm) && ValidClock(tm)
    ensures 0 <= Seconds(tm)
    ensures Seconds(tm) < END_OF_MKTIME <==> tm.year <= 139
  {
    hide IsLeapYear, DaysOfMonth, DayNumber;
    LastMkTimeYear(tm);
  }

  /** mktime orders accepted times as the calendar does. */
  lemma MkTimeMonotone(a: Tm, b: Tm)
    requires Accepted(a) && Accepted(b)
    ensures MkTime(a) < MkTime(b) <==> Before(a, b)
  {
    hide IsLeapYear, DaysOfMonth, DaysOfYear;
    if Before(a, b) {
      LaterSeconds(a, b);
    } else if Before(b, a) {
      LaterSeconds(b, a);
    }
  }

  method MakeTime(tm: Tm) returns (result: int)
    ensures result == MkTime(tm)
  {
    hide IsLeapYear, DaysOfMonth, DaysOfYear, Wrap;
    if tm.year < 70 || tm.year > 139 {
      return -1;
    }

    var targetYear := 1900 + tm.year;
    result := 0;

    for year := 1970 to targetYear
      invariant result == DaysBeforeYear(year)
    {
      NoWrap(result + DaysOfYear(year));
      result := Wrap(result + DaysOfYear(year));
    }

    if tm.mon < 0 || tm.mon > 11 {
      return -1;
    }

    for month := 0 to tm.mon
      invariant result == DaysBeforeYear(targetYear) + DaysBeforeMonth(month, targetYear)
    {
      NoWrap(result + DaysOfMonth(month, targetYear));
      result := Wrap(result + DaysOfMonth(month, targetYear));
    }

    if tm.mday < 1 || tm.mday > DaysOfMonth(tm.mon, targetYear) {
      return -1;
    }

    NoWrap(result + (tm.mday - 1));
    result := Wrap(result + (tm.mday - 1));
    NoWrap(result * 24);
    result := Wrap(result * 24);

    if tm.hour < 0 || tm.hour > 23 {
      return -1;
    }

    NoWrap(result + tm.hour);
    result := Wrap(result + tm.hour);
    NoWrap(result * 60);
    result := Wrap(result * 60);

    if tm.min < 0 || tm.min > 59 {
      return -1;
    }

    NoWrap(result + tm.min);
    result := Wrap(result + tm.min);
    assert result == (DayNumber(tm) * 24 + tm.hour) * 60 + tm.min;

    if tm.sec < 0 || tm.sec > 59 {
      return -1;
    }

    AcceptedRange(tm);
    NoWrap(result * 60);
    result := Wrap(result * 60);
    NoWrap(result + tm.sec);
    result := Wrap(result + tm.sec);
  }

  /* ---- gmtime ---- */

  // The year a day number falls in, counting from the first day of a given year.
  function YearOf(day: int, year: int): (y: int)
    requires 0 <= day
    ensures year <= y
    decreases day
  {
    if day < DaysOfYear(year) then year else YearOf(day - DaysOfYear(year), year + 1)
  }

  function MonthOf(day: int, month: int, year: int): (m: int)
    requires 0 <= month < 12 && 0 <= day < DaysOfYear(year) - DaysBeforeMonth(month, year)
    ensures month <= m < 12
    decreases 12 - month
  {
    MonthsFillYear(year);
    if day < DaysOfMonth(month, year) then month else MonthOf(day - DaysOfMonth(month, year), month + 1, year)
  }

  lemma {:induction false} YearOfBounds(day: int, year: int)
    requires 0 <= day && 1970 <= year
    ensures var y := YearOf(day, year);
      0 <= day + DaysBeforeYear(year) - DaysBeforeYear(y) < DaysOfYear(y)
    decreases day
  {
    hide IsLeapYear, DaysOfYear;
    if day >= DaysOfYear(year) {
      YearOfBounds(day - DaysOfYear(year), year + 1);
    }
  }

  // One turn of the month loop.
  lemma MonthOn(day: int, month: int, year: int)
    requires 0 <= month < 12 && 0 <= day < DaysOfYear(year) - DaysBeforeMonth(month, year)
    ensures day < DaysOfMonth(month, year) ==> MonthOf(day, month, year) == month
    ensures day >= DaysOfMonth(month, year) ==>
              var rest := day - DaysOfMonth(month, year);
              && month + 1 < 12 && 0 <= rest < DaysOfYear(year) - DaysBeforeMonth(month + 1, year)
              && MonthOf(day, month, year) == MonthOf(rest, month + 1, year)
              && DaysBeforeMonth(month + 1, year) == DaysBeforeMonth(month, year) + DaysOfMonth(month, year)
  {
    hide IsLeapYear, DaysOfYear, DaysOfMonth;
    MonthsFillYear(year);
  }

  lemma {:induction false} MonthOfBounds(day: int, month: int, year: int)
    requires 0 <= month < 12 && 0 <= day < DaysOfYear(year) - DaysBeforeMonth(month, year)
    ensures var m := MonthOf(day, month, year);
      0 <= day + DaysBeforeMonth(month, year) - DaysBeforeMonth(m, year) < DaysOfMonth(m, year)
    decreases 12 - month
  {
    hide IsLeapYear, DaysOfMonth, DaysOfYear, DaysBeforeMonth, MonthOf;
    MonthOn(day, month, year);
    if day >= DaysOfMonth(month, year) {
      MonthOfBounds(day - DaysOfMonth(month, year), month + 1, year);
    }
  }

  // What gmtime leaves in the static structure.
  function GmTime(t: int): (tm: Tm)
    requires 0 <= t
    ensures ValidDate(tm) && ValidClock(tm)
    ensures DayNumber(tm) == t / 86400
    ensures tm.wday == (DayNumber(tm) + 4) % 7 && tm.yday == DayOfYear(tm)
  {
    var days := t / 86400;
    YearOfBounds(days, 1970);
    var year := YearOf(days, 1970);
    var yday := days - DaysBeforeYear(year);
    MonthOfBounds(yday, 0, year);
    var month := MonthOf(yday, 0, year);
    Tm(t % 60, t / 60 % 60, t / 3600 % 24,
       yday - DaysBeforeMonth(month, year) + 1, month, year - 1900, (days + 4) % 7, yday)
  }

  /* ---- Inverses ---- */

  lemma ClockSeconds(t: int)
    requires 0 <= t
    ensures ((t / 86400 * 24 + t / 3600 % 24) * 60 + t / 60 % 60) * 60 + t % 60 == t
  {
    assert t / 60 / 60 == t / 3600;
    assert t / 3600 / 24 == t / 86400;
  }

  lemma GmTimeSeconds(t: int)
    requires 0 <= t
    ensures Seconds(GmTime(t)) == t
  {
    ClockSeconds(t);
  }

  /** What gmtime answers, in closed form: the one valid date of the day, the clock, and the weekday, 1 January 1970
      having been a Thursday. */
  lemma GmTimeIsCivil(t: int)
    requires 0 <= t
    ensures var tm := GmTime(t);
            && CivilDate(1900 + tm.year, tm.mon, tm.mday)
            && CivilDay(1900 + tm.year, tm.mon, tm.mday) == t / 86400
            && tm.hour == t % 86400 / 3600 && tm.min == t % 3600 / 60 && tm.sec == t % 60
            && tm.wday == (t / 86400 + 4) % 7
            && tm.yday == t / 86400 - CivilDay(1900 + tm.year, 0, 1)
  {
    hide GmTime, CivilDay, CivilDate, IsLeapYear, DaysOfMonth, DaysBeforeMonth, DaysBeforeYear;
    var tm := GmTime(t);
    ClockFields(t);
    DayNumberIsCivil(tm);
    DayNumberIsCivil(tm.(mon := 0, mday := 1));
    NoneBefore(1900 + tm.year);
  }

  lemma ClockFields(t: int)
    requires 0 <= t
    ensures var tm := GmTime(t);
            tm.hour == t % 86400 / 3600 && tm.min == t % 3600 / 60 && tm.sec == t % 60
  {
    ClockQuotients(t);
  }

  lemma ClockQuotients(t: int)
    requires 0 <= t
    ensures t / 60 % 60 == t % 3600 / 60 && t / 3600 % 24 == t % 86400 / 3600
  {
    MiddlePart(t, 60, 60);
    MiddlePart(t, 3600, 24);
  }

  // The smaller unit's count within the larger unit, which is n of them.
  lemma MiddlePart(t: int, unit: nat, n: nat)
    requires 0 < unit && 0 < n
    ensures t / unit % n == t % (unit * n) / unit
  {
    var whole, rest := t / (unit * n), t % (unit * n);
    var middle, least := rest / unit, rest % unit;
    MiddleBound(rest, unit, n);
    assert t == unit * n * whole + rest == unit * (n * whole + middle) + least;
    Unique(t, unit, n * whole + middle, least);
    Unique(t / unit, n, whole, middle);
  }

  lemma MiddleBound(rest: int, unit: nat, n: nat)
    requires 0 < unit && 0 <= rest < unit * n
    ensures 0 <= rest / unit < n
  {
  }

  /** What mktime answers, in closed form. */
  lemma MkTimeIsCivil(tm: Tm)
    ensures MkTime(tm)
         == if 70 <= tm.year <= 139 && CivilDate(1900 + tm.year, tm.mon, tm.mday) && ValidClock(tm)
            then 86400 * CivilDay(1900 + tm.year, tm.mon, tm.mday) + 3600 * tm.hour + 60 * tm.min + tm.sec
            else -1
  {
    DayNumberIsCivil(tm);
    hide DayNumber;
  }

  /** mktime undoes gmtime exactly up to the end of 2039, and rejects every later time. */
  lemma MkTimeOfGmTime(t: int)
    requires 0 <= t < UINT32
    ensures MkTime(GmTime(t)) == (if t < END_OF_MKTIME then t else -1)
  {
    GmTimeSeconds(t);
    AcceptedRange(GmTime(t));
  }

  /** gmtime undoes mktime: the six calendar fields come back, the two derived ones come out right. */
  lemma GmTimeOfMkTime(tm: Tm)
    requires Accepted(tm)
    ensures MkTime(tm) >= 0
    ensures GmTime(MkTime(tm)) == tm.(wday := (DayNumber(tm) + 4) % 7, yday := DayOfYear(tm))
  {
    hide IsLeapYear, DaysOfMonth, DaysOfYear, GmTime;
    AcceptedRange(tm);
    var t := MkTime(tm);
    var back := GmTime(t);
    GmTimeSeconds(t);
    if Before(back, tm) {
      LaterSeconds(back, tm);
    } else if Before(tm, back) {
      LaterSeconds(tm, back);
    }
  }

  method FindYear(days: int) returns (year: int, yday: int)
    requires 0 <= days
    ensures year == YearOf(days, 1970) && yday == days - DaysBeforeYear(year)
  {
    hide IsLeapYear, DaysOfYear;
    year, yday := 1970, days;
    while true
      invariant 0 <= yday && 1970 <= year
      invariant YearOf(yday, year) == YearOf(days, 1970)
      invariant yday == days - DaysBeforeYear(year)
      decreases yday
    {
      var daysOfYear := DaysOfYear(year);
      if yday < daysOfYear {
        return;
      }
      yday := yday - daysOfYear;
      year := year + 1;
    }
  }

  method FindMonth(yday: int, year: int) returns (month: int, day: int)
    requires 0 <= yday < DaysOfYear(year)
    ensures month == MonthOf(yday, 0, year) && day == yday - DaysBeforeMonth(month, year)
  {
    hide IsLeapYear, DaysOfYear, DaysOfMonth, DaysBeforeMonth, MonthOf;
    NoneBefore(year);
    month, day := 0, yday;
    while true
      invariant 0 <= month < 12
      invariant 0 <= day < DaysOfYear(year) - DaysBeforeMonth(month, year)
      invariant MonthOf(day, month, year) == MonthOf(yday, 0, year)
      invariant day == yday - DaysBeforeMonth(month, year)
      decreases day
    {
      MonthOn(day, month, year);
      var daysOfMonth := DaysOfMonth(month, year);
      if day < daysOfMonth {
        return;
      }
      day := day - daysOfMonth;
      month := month + 1;
    }
  }

  lemma Days(t: int)
    requires 0 <= t
    ensures t / 60 / 60 == t / 3600 && t / 60 / 60 / 24 == t / 86400
  {
    assert t / 60 / 60 == t / 3600;
  }

  /** The static structure that gmtime and localtime fill in. */
  class TimeLibrary {
    var tm: Tm
    var utcOffset: int

    // The result says whether a pointer to the structure is returned rather than null.
    method BreakDown(timer: int) returns (found: bool)
      modifies `tm
      ensures found == (0 <= timer < UINT32)
      ensures tm == if found then GmTime(timer) else old(tm)
    {
      hide IsLeapYear, DaysOfYear, DaysOfMonth, YearOf, MonthOf, DaysBeforeYear, DaysBeforeMonth, DayNumber, ValidDate;
      hide DayOfYear, ValidClock, Wrap;
      if timer < 0 || timer > UINT32 - 1 {
        return false;
      }

      var time := timer;
      tm := tm.(sec := time % 60);
      time := time / 60;
      tm := tm.(min := time % 60);
      time := time / 60;
      tm := tm.(hour := time % 24);
      time := time / 24;
      Days(timer);
      NoWrap(time + 4);
      tm := tm.(wday := Wrap(time + 4) % 7);

      YearOfBounds(time, 1970);
      var year, yday := FindYear(time);
      tm := tm.(year := year - 1900, yday := yday);

      var month, day := FindMonth(yday, year);
      tm := tm.(mon := month, mday := day + 1);
      return true;
    }

    method LocalTime(timer: int) returns (found: bool)
      modifies `tm
      ensures found == (0 <= timer + utcOffset < UINT32)
      ensures tm == if found then GmTime(timer + utcOffset) else old(tm)
    {
      hide GmTime;
      found := BreakDown(timer + utcOffset);
    }

    /** The round trip as a caller runs it. */
    method Recover(timer: int) returns (found: bool, result: int)
      modifies `tm
      ensures found == (0 <= timer < UINT32)
      ensures found ==> result == (if timer < END_OF_MKTIME then timer else -1)
    {
      hide GmTime, MkTime;
      found := BreakDown(timer);
      result := MakeTime(tm);
      if found {
        MkTimeOfGmTime(timer);
      }
    }
  }
}
