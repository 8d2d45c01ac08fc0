/** Week numbering of the time service: weekends, the week of a date within its month or year
    under a Monday-start or Sunday-start convention, the total number of weeks, and the
    is-weekend and week-number services built on them. */
module Weeks {
  import opened Outcome
  import opened Calendar

  /** The weekday names the services report, indexed by Go's Weekday (Sunday = 0). */
  const WeekdayNames: seq<string> := ["周日", "周一", "周二", "周三", "周四", "周五", "周六"]

  /** Saturday or Sunday: in Monday-first numbering, the last two days of the week. */
  predicate IsWeekend(d: Date)
    requires ValidDate(d)
    ensures IsWeekend(d) <==> IsoWeekday(d) >= 6
  {
    Weekday(d) == 6 || Weekday(d) == 0
  }

  /** The number of the weekday a week starts on: Monday (1) or Sunday (0). */
  function WeekStartDay(startWithMonday: bool): int {
    if startWithMonday then 1 else 0
  }

  /** The day number of the latest week start on or before day n. */
  function WeekStartOnOrBefore(n: int, startWithMonday: bool): (r: int)
    ensures r <= n < r + 7
    ensures r % 7 == WeekStartDay(startWithMonday)
  {
    var s := WeekStartDay(startWithMonday);
    var r := n - (n % 7 - s + 7) % 7;
    ModAddLeft(n, -((n % 7 - s + 7) % 7));
    r
  }

  /** How many days of the week holding `first` come before it: its weekday counted from the
      week's start (Monday-start: Sunday counts as 7, minus 1; Sunday-start: the plain weekday). */
  function FirstWeekOffset(first: Date, startWithMonday: bool): (o: int)
    requires ValidDate(first)
    ensures 0 <= o < 7
    ensures DayNumber(first) - o == WeekStartOnOrBefore(DayNumber(first), startWithMonday)
  {
    IsoWeekdayFromDayNumber(first);
    var w := WeekStartOnOrBefore(DayNumber(first), startWithMonday);
    if startWithMonday then
      var o := IsoWeekday(first) - 1;
      ModAddLeft(DayNumber(first), 6);
      WeekStartUnique(DayNumber(first), DayNumber(first) - o, w, 1);
      o
    else
      var o := Weekday(first);
      WeekStartUnique(DayNumber(first), DayNumber(first) - o, w, 0);
      o
  }

  /** Within one stretch of 7 days there is exactly one day with a given weekday. */
  lemma WeekStartUnique(n: int, a: int, b: int, s: int)
    requires a <= n < a + 7 && b <= n < b + 7
    requires a % 7 == s && b % 7 == s
    ensures a == b
  {
    var qa, qb := a / 7, b / 7;
    assert a == 7 * qa + s && b == 7 * qb + s;
  }

  /** GetWeekNumberInMonth: (day + offset - 1) / 7 + 1. It counts the weeks, started on the
      chosen weekday, from the week holding the 1st of the month up to d's week. */
  function WeekNumberInMonth(d: Date, startWithMonday: bool): (w: int)
    requires ValidDate(d)
    ensures 1 <= w <= 6
    ensures d.day == 1 ==> w == 1
    ensures w == (DayNumber(d) - WeekStartOnOrBefore(DayNumber(Date(d.year, d.month, 1)), startWithMonday)) / 7 + 1
  {
    var offset := FirstWeekOffset(Date(d.year, d.month, 1), startWithMonday);
    (d.day + offset - 1) / 7 + 1
  }

  /** Through a month the week number never decreases, and from one day to the next it grows
      by one exactly when the next day starts a week. */
  lemma WeekNumberInMonthStep(d: Date, startWithMonday: bool)
    requires ValidDate(d) && d.day < DaysInMonth(d.year, d.month)
    ensures var e := Date(d.year, d.month, d.day + 1);
      var (a, b) := (WeekNumberInMonth(d, startWithMonday), WeekNumberInMonth(e, startWithMonday));
      (b == a || b == a + 1) && (b == a + 1 <==> DayNumber(e) % 7 == WeekStartDay(startWithMonday))
  {
    var e := Date(d.year, d.month, d.day + 1);
    var w := WeekStartOnOrBefore(DayNumber(Date(d.year, d.month, 1)), startWithMonday);
    var k := DayNumber(d) - w;
    assert DayNumber(e) == w + k + 1;
    assert WeekNumberInMonth(d, startWithMonday) == k / 7 + 1;
    assert WeekNumberInMonth(e, startWithMonday) == (k + 1) / 7 + 1;
    WeekIndexStep(w, k, WeekStartDay(startWithMonday));
  }

  /** Counting whole weeks from a week start w, one more day adds a week exactly when that day
      is a week start. */
  lemma WeekIndexStep(w: int, k: int, s: int)
    requires k >= 0 && 0 <= s < 7 && w % 7 == s
    ensures (k + 1) / 7 == k / 7 || (k + 1) / 7 == k / 7 + 1
    ensures (k + 1) / 7 == k / 7 + 1 <==> (w + k + 1) % 7 == s
  {
    var q := DivSevenStep(k + 1);
    ModAddLeft(w, k + 1);
  }

  lemma {:induction false} WeekNumberInMonthMonotone(d: Date, e: Date, startWithMonday: bool)
    requires ValidDate(d) && ValidDate(e) && d.year == e.year && d.month == e.month && d.day <= e.day
    ensures WeekNumberInMonth(d, startWithMonday) <= WeekNumberInMonth(e, startWithMonday)
    decreases e.day - d.day
  {
    if d.day < e.day {
      var d' := Date(d.year, d.month, d.day + 1);
      WeekNumberInMonthStep(d, startWithMonday);
      WeekNumberInMonthMonotone(d', e, startWithMonday);
    }
  }

  /** The total weeks of a month in GetWeekNumber: (daysInMonth + offset - 1) / 7 + 1.
      It is the week number of the month's last day, so no day of the month exceeds it. */
  function MonthTotalWeeks(y: int, m: int, startWithMonday: bool): (n: int)
    requires 1 <= m <= 12
    ensures 4 <= n <= 6
    ensures n == WeekNumberInMonth(Date(y, m, DaysInMonth(y, m)), startWithMonday)
  {
    var offset := FirstWeekOffset(Date(y, m, 1), startWithMonday);
    (DaysInMonth(y, m) + offset - 1) / 7 + 1
  }

  lemma MonthTotalWeeksIsMax(d: Date, startWithMonday: bool)
    requires ValidDate(d)
    ensures WeekNumberInMonth(d, startWithMonday) <= MonthTotalWeeks(d.year, d.month, startWithMonday)
  {
    WeekNumberInMonthMonotone(d, Date(d.year, d.month, DaysInMonth(d.year, d.month)), startWithMonday);
  }

  /** GetWeekNumberInYear: the ISO week when weeks start on Monday and the ISO year is d's own
      year; otherwise the count of weeks, started on the chosen weekday, from the week holding
      January 1 up to d's week: (days since January 1 + offset) / 7 + 1. */
  function WeekNumberInYear(d: Date, startWithMonday: bool): (w: int)
    requires ValidDate(d)
    ensures 1 <= w <= 54
    ensures startWithMonday && IsoWeek(d).0 == d.year ==> w == IsoWeek(d).1
    ensures !(startWithMonday && IsoWeek(d).0 == d.year) ==>
      w == (DayNumber(d) - WeekStartOnOrBefore(DayNumber(Jan1(d.year)), startWithMonday)) / 7 + 1
  {
    var (isoYear, isoWeek) := IsoWeek(d);
    if isoYear == d.year && startWithMonday then isoWeek
    else
      var daysSinceFirstDay := DayOfYear(d) - 1;
      WeekdayFromJan1(d);
      (daysSinceFirstDay + FirstWeekOffset(Jan1(d.year), startWithMonday)) / 7 + 1
  }

  /** With Monday-start weeks, the days of early January that ISO assigns to the previous
      year get week 1 from the fallback formula. */
  lemma EarlyJanuaryFallback(d: Date)
    requires ValidDate(d) && IsoWeek(d).0 < d.year
    ensures WeekNumberInYear(d, true) == 1
  {
    var th := IsoThursday(d);
    var j := DayNumber(Jan1(d.year));
    assert DayNumber(th) < j by {
      DayNumberOrder(th, Jan1(d.year));
    }
    assert j <= DayNumber(d) by {
      WeekdayFromJan1(d);
    }
    IsoThursdayIsThursday(d);
    // the Monday of d's week is the latest Monday on or before January 1
    var monday := DayNumber(d) - IsoWeekday(d) + 1;
    assert monday % 7 == 1 by {
      IsoWeekdayFromDayNumber(d);
      MondayOfWeek(DayNumber(d));
    }
    var w := WeekStartOnOrBefore(j, true);
    WeekStartUnique(j, monday, w, 1);
    assert DayNumber(d) - w == IsoWeekday(d) - 1;
  }

  lemma MondayOfWeek(n: int)
    ensures (n - (n + 6) % 7) % 7 == 1
  {
    var q := (n + 6) / 7;
    assert n + 6 == 7 * q + (n + 6) % 7;
    ModShift(1, q - 1);
  }

  /** The total weeks of a year with Sunday-start weeks: the ceiling of
      (days in the year + January 1's weekday) / 7, which is the week number of December 31. */
  function SundayYearTotalWeeks(y: int): (n: int)
    ensures 53 <= n <= 54
    ensures n == WeekNumberInYear(Date(y, 12, 31), false)
  {
    var firstDayOffset := Weekday(Jan1(y));
    var daysInYear := YearLength(y);
    WeekdayFromJan1(Date(y, 12, 31));
    var q := (daysInYear + firstDayOffset) / 7;
    if (daysInYear + firstDayOffset) % 7 > 0 then q + 1 else q
  }

  /** No date of year y has a Sunday-start week number above the year's total. */
  lemma SundayYearTotalWeeksIsMax(d: Date)
    requires ValidDate(d)
    ensures WeekNumberInYear(d, false) <= SundayYearTotalWeeks(d.year)
  {
    WeekdayFromJan1(d);
    WeekdayFromJan1(Date(d.year, 12, 31));
  }

  /** The ISO total weeks of year y as GetWeekNumber computes it: the ISO week of December 31,
      or of December 30 when December 31 is in week 1. */
  /** It is right unless December 31 is a Tuesday or a Wednesday: then December 30 is also in
      week 1 of the next year, and the total comes out as 1. */
  function IsoTotalWeeksAsWritten(y: int): (n: int)
    ensures Weekday(Date(y, 12, 31)) == 2 || Weekday(Date(y, 12, 31)) == 3 ==> n == 1
    ensures !(Weekday(Date(y, 12, 31)) == 2 || Weekday(Date(y, 12, 31)) == 3) ==> n == IsoWeeksInYear(y)
  {
    Dec31Weeks(y);
    var lastWeek := IsoWeek(Date(y, 12, 31)).1;
    if lastWeek == 1 then IsoWeek(Date(y, 12, 30)).1 else lastWeek
  }

  /** The ISO weeks of December 30 and 31, by the weekday December 31 falls on. */
  lemma Dec31Weeks(y: int)
    ensures IsoWeekday(Date(y, 12, 31)) >= 4 ==> IsoWeek(Date(y, 12, 31)) == IsoWeek(Date(y, 12, 28))
    ensures IsoWeekday(Date(y, 12, 31)) <= 3 ==> IsoWeek(Date(y, 12, 31)) == (y + 1, 1)
    ensures IsoWeekday(Date(y, 12, 31)) == 1 ==> IsoWeek(Date(y, 12, 30)) == IsoWeek(Date(y, 12, 28))
    ensures 1 < IsoWeekday(Date(y, 12, 31)) <= 3 ==> IsoWeek(Date(y, 12, 30)) == (y + 1, 1)
  {
    var k := IsoWeekday(Date(y, 12, 31));
    if k >= 4 {
      Dec31LateInWeek(y);
    } else {
      Dec31EarlyInWeek(y);
    }
  }

  /** December 31 on Thursday to Sunday: it shares its week with December 28. */
  lemma Dec31LateInWeek(y: int)
    requires IsoWeekday(Date(y, 12, 31)) >= 4
    ensures IsoWeek(Date(y, 12, 31)) == IsoWeek(Date(y, 12, 28))
  {
    var d31, d28 := Date(y, 12, 31), Date(y, 12, 28);
    var k := IsoWeekday(d31);
    assert DayNumber(d28) == DayNumber(d31) - 3;
    IsoWeekdayOffset(d31, d28);
    assert IsoWeekday(d28) == k - 3;
    SameIsoWeek(d31, d28);
  }

  /** December 31 on Monday to Wednesday: it is in week 1 of the next year, and December 30 is
      too unless December 31 is a Monday. */
  lemma Dec31EarlyInWeek(y: int)
    requires IsoWeekday(Date(y, 12, 31)) <= 3
    ensures IsoWeek(Date(y, 12, 31)) == (y + 1, 1)
    ensures IsoWeekday(Date(y, 12, 31)) == 1 ==> IsoWeek(Date(y, 12, 30)) == IsoWeek(Date(y, 12, 28))
    ensures IsoWeekday(Date(y, 12, 31)) > 1 ==> IsoWeek(Date(y, 12, 30)) == (y + 1, 1)
  {
    var k := IsoWeekday(Date(y, 12, 31));
    LateDecemberInWeekOne(Date(y, 12, 31), k - 1);
    if k == 1 {
      Dec30AfterMondayDec31(y);
    } else {
      Dec30InWeekOne(y);
    }
  }

  /** December 31 on a Monday: December 30 is a Sunday, in the week of December 28. */
  lemma Dec30AfterMondayDec31(y: int)
    requires IsoWeekday(Date(y, 12, 31)) == 1
    ensures IsoWeek(Date(y, 12, 30)) == IsoWeek(Date(y, 12, 28))
  {
    IsoWeekdayOffset(Date(y, 12, 31), Date(y, 12, 30));
    Dec30SundayAfterDec28(y);
  }

  /** December 31 on a Tuesday or a Wednesday: December 30 is in week 1 of the next year too. */
  lemma Dec30InWeekOne(y: int)
    requires 2 <= IsoWeekday(Date(y, 12, 31)) <= 3
    ensures IsoWeek(Date(y, 12, 30)) == (y + 1, 1)
  {
    var k := IsoWeekday(Date(y, 12, 31));
    IsoWeekdayOffset(Date(y, 12, 31), Date(y, 12, 30));
    assert IsoWeekday(Date(y, 12, 30)) == k - 1;
    LateDecemberInWeekOne(Date(y, 12, 30), k - 2);
  }

  /** A day of late December that is at most the third day of its Monday-to-Sunday week, counted
      from the end of the year, is in week 1 of the next year: its Thursday is in early January. */
  lemma LateDecemberInWeekOne(d: Date, before: int)
    requires ValidDate(d) && d.month == 12 && 0 <= before <= 2
    requires IsoWeekday(d) == before + 1 && d.day + 3 - before > 31
    ensures IsoWeek(d) == (d.year + 1, 1)
  {
    var j := d.day + 3 - before - 31;
    assert DayNumber(Date(d.year + 1, 1, j)) == DayNumber(d) + 4 - IsoWeekday(d) by {
      YearStep(d.year);
    }
    assert DayNumber(IsoThursday(d)) == DayNumber(Date(d.year + 1, 1, j)) by {
      assert DayNumber(IsoThursday(d)) == DayNumber(d) + 4 - IsoWeekday(d);
    }
    ThursdayInEarlyJanuary(d, d.year + 1, j);
  }

  lemma Dec30SundayAfterDec28(y: int)
    requires IsoWeekday(Date(y, 12, 30)) == 7
    ensures IsoWeek(Date(y, 12, 30)) == IsoWeek(Date(y, 12, 28))
  {
    var d30, d28 := Date(y, 12, 30), Date(y, 12, 28);
    assert IsoWeekday(d28) == 5 by {
      IsoWeekdayOffset(d30, d28);
    }
    SameIsoWeek(d30, d28);
  }

  /** 2024 ends on a Tuesday, so the as-written ISO total for 2024 is 1 instead of 52. */
  lemma IsoTotalWeeksAsWrittenIn2024()
    ensures IsoTotalWeeksAsWritten(2024) == 1 && IsoWeeksInYear(2024) == 52
  {
    Dec31In2024IsTuesday();
    IsoWeeksIn2024();
  }

  lemma Dec31In2024IsTuesday()
    ensures Weekday(Date(2024, 12, 31)) == 2
  {
    assert DaysBeforeYear(2024) == 738885;
    assert DayNumber(Date(2024, 12, 31)) == 739251;
  }

  /** December 28, 2024 is a Saturday whose Thursday, December 26, is day 361: week 52. */
  lemma IsoWeeksIn2024()
    ensures IsoWeeksInYear(2024) == 52
  {
    assert DaysBeforeYear(2024) == 738885;
    var d := Date(2024, 12, 28);
    assert DayNumber(d) == 739248;
    assert IsoThursday(d) == Date(2024, 12, 26);
  }

  /** The weekday and its name, as both services report them. */
  datatype WeekdayInfo = WeekdayInfo(weekday: int, weekdayName: string)

  function WeekdayInfoOf(d: Date): (r: WeekdayInfo)
    requires ValidDate(d)
    ensures 0 <= r.weekday < 7 && r.weekday == Weekday(d) && r.weekdayName == WeekdayNames[r.weekday]
  {
    WeekdayInfo(Weekday(d), WeekdayNames[Weekday(d)])
  }

  /** The date a service works on: today when the string is empty, else the parsed string. */
  function ResolveDate(dateStr: string, today: Date, code: int): (r: Result<Date, Fault>)
    requires ValidDate(today)
    ensures dateStr == "" ==> r == Success(today)
    ensures r.Success? ==> ValidDate(r.value)
    ensures r.Failure? ==> (r.error.ApiError? || r.error.WrappedError?) && r.error.code == code
    ensures dateStr != "" && r.Success? ==> ParseDate(dateStr) == Some(r.value) && FormatDate(r.value) == dateStr
    ensures dateStr != "" && !IsValidDateFormat(dateStr) ==> r == Failure(ApiError(code, "日期格式错误，应为YYYY-MM-DD"))
    ensures dateStr != "" && IsValidDateFormat(dateStr) && ParseDate(dateStr).None? ==>
      r == Failure(WrappedError(code, "日期解析失败: "))
  {
    if dateStr == "" then Success(today)
    else if !IsValidDateFormat(dateStr) then Failure(ApiError(code, "日期格式错误，应为YYYY-MM-DD"))
    else match ParseDate(dateStr)
      case None => Failure(WrappedError(code, "日期解析失败: "))
      case Some(d) => Success(d)
  }

  datatype IsWeekendResponse = IsWeekendResponse(date: string, isWeekend: bool, weekday: int, weekdayName: string)

  /** CheckIsWeekend: today when no date is given, else the validated date (code 3001 on failure). */
  function CheckIsWeekend(dateStr: string, today: Date): (r: Result<IsWeekendResponse, Fault>)
    requires ValidDate(today)
    ensures r.Failure? <==> ResolveDate(dateStr, today, 3001).Failure?
    ensures r.Failure? ==> r.error == ResolveDate(dateStr, today, 3001).error
    ensures r.Success? ==>
      var d := ResolveDate(dateStr, today, 3001).value;
      r.value.date == FormatDate(d) &&
      (dateStr != "" ==> r.value.date == dateStr) &&
      (r.value.isWeekend <==> r.value.weekday == 0 || r.value.weekday == 6) &&
      r.value.weekday == Weekday(d) && r.value.weekdayName == WeekdayNames[r.value.weekday]
  {
    match ResolveDate(dateStr, today, 3001)
    case Failure(e) => Failure(e)
    case Success(d) =>
      var info := WeekdayInfoOf(d);
      Success(IsWeekendResponse(FormatDate(d), IsWeekend(d), info.weekday, info.weekdayName))
  }

  datatype WeekNumberResponse = WeekNumberResponse(
    date: string, weekNumber: int, weekday: int, weekdayName: string,
    inMonth: bool, startDay: string, totalWeeks: int)

  /** The total weeks GetWeekNumber reports. The Monday-first year total is the as-written
      December 31 / December 30 rule: the true ISO count, except 1 in a year that ends on a Tuesday
      or a Wednesday. */
  function TotalWeeks(d: Date, inMonth: bool, startWithMonday: bool): (n: int)
    requires ValidDate(d)
    ensures 1 <= n <= 54
    ensures inMonth ==> n == MonthTotalWeeks(d.year, d.month, startWithMonday)
    ensures inMonth ==> 4 <= n && WeekNumberInMonth(d, startWithMonday) <= n
    ensures !inMonth && !startWithMonday ==> n == SundayYearTotalWeeks(d.year)
    ensures !inMonth && !startWithMonday ==> WeekNumberInYear(d, false) <= n
    ensures !inMonth && startWithMonday ==>
      n == (if Weekday(Date(d.year, 12, 31)) == 2 || Weekday(Date(d.year, 12, 31)) == 3 then 1 else IsoWeeksInYear(d.year))
  {
    if inMonth then
      MonthTotalWeeksIsMax(d, startWithMonday);
      MonthTotalWeeks(d.year, d.month, startWithMonday)
    else if startWithMonday then
      IsoTotalWeeksAsWritten(d.year)
    else
      SundayYearTotalWeeksIsMax(d);
      SundayYearTotalWeeks(d.year)
  }

  /** Where the as-written Monday-first total is right, it bounds every ISO week number of a
      date in its own ISO year. */
  lemma IsoTotalWeeksBound(d: Date)
    requires ValidDate(d) && IsoWeek(d).0 == d.year
    requires !(Weekday(Date(d.year, 12, 31)) == 2 || Weekday(Date(d.year, 12, 31)) == 3)
    ensures WeekNumberInYear(d, true) <= TotalWeeks(d, false, true)
  {
    IsoWeekAtMost(d);
  }

  /** Every date of 2024 reports a Monday-first year total of 1, although 2024 has 52 ISO weeks. */
  lemma TotalWeeksIn2024(d: Date)
    requires ValidDate(d) && d.year == 2024
    ensures TotalWeeks(d, false, true) == 1 && IsoWeeksInYear(d.year) == 52
  {
    Dec31In2024IsTuesday();
    IsoWeeksIn2024();
  }

  /** GetWeekNumber: today when no date is given, else the validated date (code 3002 on failure);
      the week in the month or in the year, the weekday, the week's start day and the total weeks. */
  function GetWeekNumber(dateStr: string, inMonth: bool, startWithMonday: bool, today: Date): (r: Result<WeekNumberResponse, Fault>)
    requires ValidDate(today)
    ensures r.Failure? <==> ResolveDate(dateStr, today, 3002).Failure?
    ensures r.Failure? ==> (r.error.ApiError? || r.error.WrappedError?) && r.error.code == 3002
    ensures r.Success? ==>
      var d := ResolveDate(dateStr, today, 3002).value;
      var v := r.value;
      v.date == FormatDate(d) &&
      (dateStr != "" ==> v.date == dateStr) &&
      v.weekNumber == (if inMonth then WeekNumberInMonth(d, startWithMonday) else WeekNumberInYear(d, startWithMonday)) &&
      v.weekday == Weekday(d) && v.weekdayName == WeekdayNames[v.weekday] &&
      v.inMonth == inMonth && v.startDay == (if startWithMonday then "周一" else "周日") &&
      1 <= v.weekNumber && v.totalWeeks == TotalWeeks(d, inMonth, startWithMonday)
  {
    match ResolveDate(dateStr, today, 3002)
    case Failure(e) => Failure(e)
    case Success(d) =>
      var weekNumber := if inMonth then WeekNumberInMonth(d, startWithMonday) else WeekNumberInYear(d, startWithMonday);
      var info := WeekdayInfoOf(d);
      var startDay := if startWithMonday then "周一" else "周日";
      Success(WeekNumberResponse(FormatDate(d), weekNumber, info.weekday, info.weekdayName,
        inMonth, startDay, TotalWeeks(d, inMonth, startWithMonday)))
  }
}
