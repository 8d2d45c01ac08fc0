/** Dates in the proleptic Gregorian calendar, as Go's `time` package computes them for a date at
    midnight: day numbers, weekdays, day of year, next and previous day, and the ISO week. */
module Calendar {
  import opened Decimal
  import opened Outcome

  datatype Date = Date(year: int, month: int, day: int)

  /** The Gregorian leap-year rule. (Go's `%` truncates, Dafny's is Euclidean; a zero
      remainder is the same under both, so the rule reads the same for negative years.) */
  predicate IsLeapYear(y: int) {
    y % 4 == 0 && (y % 100 != 0 || y % 400 == 0)
  }

  function YearLength(y: int): (n: int)
    ensures n == 365 || n == 366
  {
    if IsLeapYear(y) then 366 else 365
  }

  function DaysInMonth(y: int, m: int): (n: int)
    requires 1 <= m <= 12
    ensures 28 <= n <= 31
    ensures n == 29 <==> m == 2 && IsLeapYear(y)
  {
    if m == 2 then (if IsLeapYear(y) then 29 else 28)
    else if m == 4 || m == 6 || m == 9 || m == 11 then 30
    else 31
  }

  predicate ValidDate(d: Date) {
    1 <= d.month <= 12 && 1 <= d.day <= DaysInMonth(d.year, d.month)
  }

  /** Days in the months of year y before month m. */
  function DaysBeforeMonth(y: int, m: int): (n: int)
    requires 1 <= m <= 12
    ensures 0 <= n <= 335
  {
    var leap := if IsLeapYear(y) then 1 else 0;
    if m == 1 then 0
    else if m == 2 then 31
    else if m == 3 then 59 + leap
    else if m == 4 then 90 + leap
    else if m == 5 then 120 + leap
    else if m == 6 then 151 + leap
    else if m == 7 then 181 + leap
    else if m == 8 then 212 + leap
    else if m == 9 then 243 + leap
    else if m == 10 then 273 + leap
    else if m == 11 then 304 + leap
    else 334 + leap
  }

  /** Days in the years before year y, counted from 0001-01-01. */
  function DaysBeforeYear(y: int): int {
    365 * (y - 1) + (y - 1) / 4 - (y - 1) / 100 + (y - 1) / 400
  }

  /** 1-based day of the year (Go's YearDay). */
  function DayOfYear(d: Date): (n: int)
    requires ValidDate(d)
    ensures 1 <= n <= YearLength(d.year)
  {
    DaysBeforeMonth(d.year, d.month) + d.day
  }

  /** The serial day number: 0001-01-01 is day 1. */
  function DayNumber(d: Date): int
    requires ValidDate(d)
  {
    DaysBeforeYear(d.year) + DayOfYear(d)
  }

  /** Go's Weekday: Sunday = 0 … Saturday = 6 (0001-01-01, day 1, was a Monday). */
  function Weekday(d: Date): (w: int)
    requires ValidDate(d)
    ensures 0 <= w < 7
  {
    DayNumber(d) % 7
  }

  /** ISO weekday: Monday = 1 … Sunday = 7. */
  function IsoWeekday(d: Date): (w: int)
    requires ValidDate(d)
    ensures 1 <= w <= 7
    ensures w % 7 == Weekday(d)
  {
    if Weekday(d) == 0 then 7 else Weekday(d)
  }

  function Jan1(y: int): (d: Date)
    ensures ValidDate(d)
  {
    Date(y, 1, 1)
  }

  /** A date's weekday is its year's January 1 weekday advanced by its day of year. */
  lemma WeekdayFromJan1(d: Date)
    requires ValidDate(d)
    ensures Weekday(d) == (Weekday(Jan1(d.year)) + DayOfYear(d) - 1) % 7
    ensures DayNumber(d) == DayNumber(Jan1(d.year)) + DayOfYear(d) - 1
  {
    ModAddLeft(DayNumber(Jan1(d.year)), DayOfYear(d) - 1);
  }

  lemma ModAddLeft(a: int, b: int)
    ensures (a % 7 + b) % 7 == (a + b) % 7
  {
    var q := a / 7;
    assert a == 7 * q + a % 7;
    ModShift(a % 7 + b, q);
  }

  lemma DivSevenStep(m: int) returns (q: int)
    requires m >= 1
    ensures q == (m - 1) / 7 && m / 7 == (if m % 7 == 0 then q + 1 else q)
  {
    q := (m - 1) / 7;
    var r := (m - 1) % 7;
    assert m - 1 == 7 * q + r;
    if r == 6 {
      assert m == 7 * (q + 1);
    } else {
      assert m == 7 * q + (r + 1);
    }
  }

  lemma ModShift(x: int, q: int)
    ensures (7 * q + x) % 7 == x % 7
  {
  }

  lemma YearStep(y: int)
    ensures DaysBeforeYear(y + 1) == DaysBeforeYear(y) + YearLength(y)
  {
    var a := DivStep4(y);
    var b := DivStep100(y);
    var c := DivStep400(y);
    LeapDivisors(y);
  }

  /** y / 4 grows by one exactly when y is a multiple of 4; likewise for 100 and 400 below. */
  lemma DivStep4(y: int) returns (q: int)
    ensures q == (y - 1) / 4 && y / 4 == (if y % 4 == 0 then q + 1 else q)
  {
    q := (y - 1) / 4;
    var r := (y - 1) % 4;
    assert y - 1 == 4 * q + r;
    if r == 3 {
      assert y == 4 * (q + 1);
    } else {
      assert y == 4 * q + (r + 1);
    }
  }

  lemma DivStep100(y: int) returns (q: int)
    ensures q == (y - 1) / 100 && y / 100 == (if y % 100 == 0 then q + 1 else q)
  {
    q := (y - 1) / 100;
    var r := (y - 1) % 100;
    assert y - 1 == 100 * q + r;
    if r == 99 {
      assert y == 100 * (q + 1);
    } else {
      assert y == 100 * q + (r + 1);
    }
  }

  lemma DivStep400(y: int) returns (q: int)
    ensures q == (y - 1) / 400 && y / 400 == (if y % 400 == 0 then q + 1 else q)
  {
    q := (y - 1) / 400;
    var r := (y - 1) % 400;
    assert y - 1 == 400 * q + r;
    if r == 399 {
      assert y == 400 * (q + 1);
    } else {
      assert y == 400 * q + (r + 1);
    }
  }

  lemma LeapDivisors(y: int)
    ensures y % 400 == 0 ==> y % 100 == 0
    ensures y % 100 == 0 ==> y % 4 == 0
  {
    if y % 400 == 0 {
      var q := y / 400;
      assert y == 100 * (4 * q);
      assert y / 100 == 4 * q;
    }
    if y % 100 == 0 {
      var q := y / 100;
      assert y == 4 * (25 * q);
      assert y / 4 == 25 * q;
    }
  }

  /** The day after d (Go's AddDate(0, 0, 1) on a date at midnight). */
  function NextDay(d: Date): (n: Date)
    requires ValidDate(d)
    ensures ValidDate(n) && DayNumber(n) == DayNumber(d) + 1
  {
    if d.day < DaysInMonth(d.year, d.month) then Date(d.year, d.month, d.day + 1)
    else if d.month < 12 then MonthStep(d.year, d.month); Date(d.year, d.month + 1, 1)
    else YearEnd(d.year); Date(d.year + 1, 1, 1)
  }

  /** The day before d. */
  function PrevDay(d: Date): (p: Date)
    requires ValidDate(d)
    ensures ValidDate(p) && DayNumber(p) == DayNumber(d) - 1
  {
    if d.day > 1 then Date(d.year, d.month, d.day - 1)
    else if d.month > 1 then MonthStep(d.year, d.month - 1); Date(d.year, d.month - 1, DaysInMonth(d.year, d.month - 1))
    else YearEnd(d.year - 1); Date(d.year - 1, 12, 31)
  }

  /** December 31 is the day before the next January 1. */
  lemma YearEnd(y: int)
    ensures ValidDate(Date(y, 12, 31)) && DayNumber(Date(y, 12, 31)) + 1 == DayNumber(Date(y + 1, 1, 1))
  {
    YearStep(y);
  }

  lemma PrevNext(d: Date)
    requires ValidDate(d)
    ensures PrevDay(NextDay(d)) == d && NextDay(PrevDay(d)) == d
  {
    DayNumberOrder(PrevDay(NextDay(d)), d);
    DayNumberOrder(NextDay(PrevDay(d)), d);
  }

  /** d moved by k days (AddDate(0, 0, k)). */
  function AddDays(d: Date, k: int): (r: Date)
    requires ValidDate(d)
    ensures ValidDate(r) && DayNumber(r) == DayNumber(d) + k
    decreases if k < 0 then -k else k
  {
    if k == 0 then d
    else if k > 0 then AddDays(NextDay(d), k - 1)
    else AddDays(PrevDay(d), k + 1)
  }

  lemma {:induction false} AddDaysFromNext(d: Date, k: int)
    requires ValidDate(d)
    ensures AddDays(NextDay(d), k - 1) == AddDays(d, k)
    decreases if k < 0 then -k else k
  {
    if k <= 0 {
      if k == 0 {
        PrevNext(d);
      } else {
        AddDaysFromNext(PrevDay(d), k + 1);
        PrevNext(d);
      }
    }
  }

  /** Calendar order on dates: by year, then month, then day. */
  predicate Before(a: Date, b: Date) {
    a.year < b.year || (a.year == b.year && (a.month < b.month || (a.month == b.month && a.day < b.day)))
  }

  lemma {:induction false} DaysBeforeYearMonotone(y1: int, y2: int)
    requires y1 < y2
    ensures DaysBeforeYear(y1) + YearLength(y1) <= DaysBeforeYear(y2)
    decreases y2 - y1
  {
    YearStep(y1);
    if y1 + 1 < y2 {
      DaysBeforeYearMonotone(y1 + 1, y2);
    }
  }

  lemma MonthMonotone(y: int, m1: int, m2: int)
    requires 1 <= m1 < m2 <= 12
    ensures DaysBeforeMonth(y, m1) + DaysInMonth(y, m1) <= DaysBeforeMonth(y, m2)
  {
  }

  /** Day numbers follow calendar order, so a valid date is determined by its day number. */
  lemma DayNumberOrder(a: Date, b: Date)
    requires ValidDate(a) && ValidDate(b)
    ensures Before(a, b) <==> DayNumber(a) < DayNumber(b)
    ensures DayNumber(a) == DayNumber(b) <==> a == b
  {
    if a.year < b.year {
      DaysBeforeYearMonotone(a.year, b.year);
    } else if b.year < a.year {
      DaysBeforeYearMonotone(b.year, a.year);
    } else if a.month < b.month {
      MonthMonotone(a.year, a.month, b.month);
    } else if b.month < a.month {
      MonthMonotone(a.year, b.month, a.month);
    }
  }

  /** The Thursday of d's Monday-to-Sunday week. */
  function IsoThursday(d: Date): (th: Date)
    requires ValidDate(d)
    ensures ValidDate(th)
  {
    ShiftDays(d, 4 - IsoWeekday(d))
  }

  /** d moved by k days for a move of less than a week, which crosses at most one month end. */
  function ShiftDays(d: Date, k: int): (r: Date)
    requires ValidDate(d) && -6 <= k <= 6
    ensures ValidDate(r) && DayNumber(r) == DayNumber(d) + k
  {
    var y, m, n := d.year, d.month, d.day + k;
    if 1 <= n <= DaysInMonth(y, m) then Date(y, m, n)
    else if n > DaysInMonth(y, m) then
      if m < 12 then MonthStep(y, m); Date(y, m + 1, n - DaysInMonth(y, m))
      else YearStep(y); Date(y + 1, 1, n - 31)
    else
      if m > 1 then MonthStep(y, m - 1); Date(y, m - 1, DaysInMonth(y, m - 1) + n)
      else YearStep(y - 1); Date(y - 1, 12, 31 + n)
  }

  lemma MonthStep(y: int, m: int)
    requires 1 <= m < 12
    ensures DaysBeforeMonth(y, m + 1) == DaysBeforeMonth(y, m) + DaysInMonth(y, m)
  {
  }

  /** Go's Time.ISOWeek: the ISO year is the year of the Thursday of d's week, and the week is
      that Thursday's zero-based day of year divided by 7, plus 1. */
  function IsoWeek(d: Date): (r: (int, int))
    requires ValidDate(d)
    ensures 1 <= r.1 <= 53
  {
    var th := IsoThursday(d);
    (th.year, (DayOfYear(th) - 1) / 7 + 1)
  }

  lemma IsoThursdayIsThursday(d: Date)
    requires ValidDate(d)
    ensures Weekday(IsoThursday(d)) == 4
    ensures DayNumber(d) == DayNumber(IsoThursday(d)) - 4 + IsoWeekday(d)
  {
    ThursdayMod(DayNumber(d), DayNumber(IsoThursday(d)), IsoWeekday(d));
  }

  /** Moving day n with ISO weekday iw by 4 - iw days lands on a Thursday. */
  lemma ThursdayMod(n: int, t: int, iw: int)
    requires 1 <= iw <= 7 && iw % 7 == n % 7 && t == n + 4 - iw
    ensures t % 7 == 4
  {
    var q := n / 7;
    assert n == 7 * q + n % 7;
    if iw == 7 {
      assert t == 7 * (q - 1) + 4;
    } else {
      assert t == 7 * q + 4;
    }
  }

  /** ISO 8601's own definition: week 1 of year y is the Monday-to-Sunday week holding y's first
      Thursday. FirstThursday is the day number of that Thursday. */
  function FirstThursday(y: int): (n: int)
    ensures DayNumber(Jan1(y)) <= n <= DayNumber(Jan1(y)) + 6
    ensures n % 7 == 4
  {
    var j := DayNumber(Jan1(y));
    var f := (4 - j % 7 + 7) % 7;
    ModShift(f + j % 7, j / 7);
    j + f
  }

  /** The day number of the Monday that starts week 1 of ISO year y. */
  function Week1Monday(y: int): int {
    FirstThursday(y) - 3
  }

  lemma ModDiffZero(a: int, b: int)
    requires a % 7 == b % 7
    ensures a - b == 7 * ((a - b) / 7)
  {
    var qa, qb := a / 7, b / 7;
    assert a == 7 * qa + a % 7;
    assert b == 7 * qb + b % 7;
    assert a - b == 7 * (qa - qb);
  }

  /** A Thursday of year y lies a whole number t of weeks after y's first Thursday, and t is its
      zero-based day of year divided by 7. */
  lemma ThursdayIndex(th: Date) returns (t: int)
    requires ValidDate(th) && Weekday(th) == 4
    ensures t >= 0 && DayNumber(th) == FirstThursday(th.year) + 7 * t && (DayOfYear(th) - 1) / 7 == t
  {
    var n, f := DayNumber(th), FirstThursday(th.year);
    WeekdayFromJan1(th);
    ModDiffZero(n, f);
    t := (n - f) / 7;
    var j := DayNumber(Jan1(th.year));
    assert DayOfYear(th) - 1 == 7 * t + (f - j);
  }

  /** A Thursday of year y lies at least a week before the first Thursday of year y + 1. */
  lemma ThursdayBeforeNextYear(th: Date)
    requires ValidDate(th) && Weekday(th) == 4
    ensures DayNumber(th) + 7 <= FirstThursday(th.year + 1)
  {
    var n, f := DayNumber(th), FirstThursday(th.year + 1);
    YearStep(th.year);
    assert n < DayNumber(Jan1(th.year + 1));
    ModDiffZero(f, n);
  }

  /** ISO 8601's week (y, w): day n lies between the first Monday of ISO year y and the first
      Monday of the next one, and in the w-th whole week from that Monday. */
  predicate InIsoWeek(n: int, y: int, w: int) {
    InWeekSpan(n, Week1Monday(y), Week1Monday(y + 1), w)
  }

  /** Day n lies in the span of days m to m2 - 1, in the w-th whole week from m. */
  predicate InWeekSpan(n: int, m: int, m2: int, w: int) {
    m <= n < m2 && m + 7 * (w - 1) <= n < m + 7 * w
  }

  /** Go's ISOWeek agrees with the ISO 8601 definition. */
  lemma IsoWeekIsStandard(d: Date)
    requires ValidDate(d)
    ensures InIsoWeek(DayNumber(d), IsoWeek(d).0, IsoWeek(d).1)
  {
    IsoThursdayIsThursday(d);
    WeekOfThursday(d, IsoThursday(d), IsoWeek(d).0, IsoWeek(d).1);
  }

  /** A day whose week's Thursday is th lies in th's ISO year, in the week counted by th's day of
      year. */
  lemma WeekOfThursday(d: Date, th: Date, y: int, w: int)
    requires ValidDate(d) && ValidDate(th) && Weekday(th) == 4
    requires DayNumber(d) == DayNumber(th) - 4 + IsoWeekday(d)
    requires y == th.year && w == (DayOfYear(th) - 1) / 7 + 1
    ensures InIsoWeek(DayNumber(d), y, w)
  {
    var t := ThursdayIndex(th);
    ThursdayBeforeNextYear(th);
  }

  /** Consecutive days of the same Monday-to-Sunday week share their ISO year and week. */
  lemma IsoWeekSameWeek(d: Date)
    requires ValidDate(d) && IsoWeekday(d) < 7
    ensures IsoWeekday(NextDay(d)) == IsoWeekday(d) + 1
    ensures IsoWeek(NextDay(d)) == IsoWeek(d)
  {
    var e := NextDay(d);
    assert IsoWeekday(e) == IsoWeekday(d) + 1 by {
      ModNext(DayNumber(d), DayNumber(e));
    }
    SameIsoWeek(e, d);
  }

  lemma ModNext(n: int, n1: int)
    requires n1 == n + 1
    ensures n1 % 7 == if n % 7 == 6 then 0 else n % 7 + 1
  {
    var q := n / 7;
    assert n == 7 * q + n % 7;
    if n % 7 == 6 {
      assert n1 == 7 * (q + 1);
    } else {
      assert n1 == 7 * q + (n % 7 + 1);
    }
  }

  /** January 4 always lies in week 1 of its own year. */
  lemma Jan4InWeekOne(y: int)
    ensures ValidDate(Date(y, 1, 4)) && IsoWeek(Date(y, 1, 4)) == (y, 1)
  {
    var d := Date(y, 1, 4);
  }

  /** The number of ISO weeks of year y: the week of December 28, which always lies in the last
      week of its own ISO year. */
  function IsoWeeksInYear(y: int): (n: int)
    ensures ValidDate(Date(y, 12, 28)) && IsoWeek(Date(y, 12, 28)) == (y, n)
    ensures n == 52 || n == 53
  {
    var d := Date(y, 12, 28);
    IsoWeek(d).1
  }

  /** No date of ISO year y has a week number above IsoWeeksInYear(y). */
  lemma IsoWeekAtMost(d: Date)
    requires ValidDate(d)
    ensures IsoWeek(d).1 <= IsoWeeksInYear(IsoWeek(d).0)
  {
    var (y, w) := IsoWeek(d);
    var m, m2 := Week1Monday(y), Week1Monday(y + 1);
    assert InWeekSpan(DayNumber(d), m, m2, w) by {
      IsoWeekIsStandard(d);
    }
    var k := Dec28InLastWeek(y);
    WeekBound(DayNumber(d), DayNumber(Date(y, 12, 28)), m, m2, w, IsoWeeksInYear(y), k);
  }

  /** December 28 lies in the last week of its ISO year, which ends at most a week after it. */
  lemma Dec28InLastWeek(y: int) returns (k: int)
    ensures ValidDate(Date(y, 12, 28)) && InIsoWeek(DayNumber(Date(y, 12, 28)), y, IsoWeeksInYear(y))
    ensures Week1Monday(y + 1) == Week1Monday(y) + 7 * k && Week1Monday(y + 1) <= DayNumber(Date(y, 12, 28)) + 7
  {
    IsoWeekIsStandard(Date(y, 12, 28));
    Dec28BeforeJan1(y);
    assert FirstThursday(y + 1) <= DayNumber(Jan1(y + 1)) + 6;
    k := NextWeek1Monday(y);
  }

  /** December 28 is four days before the next January 1. */
  lemma Dec28BeforeJan1(y: int)
    ensures ValidDate(Date(y, 12, 28)) && DayNumber(Jan1(y + 1)) == DayNumber(Date(y, 12, 28)) + 4
  {
    YearStep(y);
  }

  /** A day of a year of k whole weeks from m to m2 lies in a week no later than that of a day in
      the year's last week. */
  lemma WeekBound(n: int, n28: int, m: int, m2: int, w: int, last: int, k: int)
    requires InWeekSpan(n, m, m2, w) && InWeekSpan(n28, m, m2, last)
    requires m2 == m + 7 * k && m2 <= n28 + 7
    ensures w <= last
  {
  }

  /** ISO years last a whole number of weeks. */
  lemma NextWeek1Monday(y: int) returns (k: int)
    ensures Week1Monday(y + 1) == Week1Monday(y) + 7 * k
  {
    ModDiffZero(FirstThursday(y + 1), FirstThursday(y));
    k := (FirstThursday(y + 1) - FirstThursday(y)) / 7;
  }

  /** The shape `^\d{4}-\d{2}-\d{2}$`: exactly four ASCII digits, '-', two digits, '-', two digits. */
  predicate IsValidDateFormat(s: string) {
    |s| == 10 && AllDigits(s[..4]) && s[4] == '-' && AllDigits(s[5..7]) && s[7] == '-' && AllDigits(s[8..])
  }

  /** The regular expression read position by position: ten characters, '-' at 4 and 7, an
      ASCII digit everywhere else. */
  lemma DateFormatByPosition(s: string)
    ensures IsValidDateFormat(s) <==>
      |s| == 10 && forall i :: 0 <= i < 10 ==> if i == 4 || i == 7 then s[i] == '-' else IsDigit(s[i])
  {
    if |s| == 10 {
      assert forall i :: 0 <= i < 4 ==> s[..4][i] == s[i];
      assert forall i :: 5 <= i < 7 ==> s[5..7][i - 5] == s[i];
      assert forall i :: 8 <= i < 10 ==> s[8..][i - 8] == s[i];
    }
  }

  /** Go's layout "2006-01-02" for a date: the year padded to 4 digits, month and day to 2. */
  function FormatDate(d: Date): (s: string)
    ensures 0 <= d.year < 10000 && ValidDate(d) ==> IsValidDateFormat(s)
  {
    var y, m, dd := LayoutPadded(d.year, 4), LayoutPadded(d.month, 2), LayoutPadded(d.day, 2);
    if 0 <= d.year < 10000 && ValidDate(d) then
      assert Pow10(2) == 100 && Pow10(4) == 10000;
      DigitsLength(d.year, 4);
      DigitsLength(d.month, 2);
      DigitsLength(d.day, 2);
      assert |y| == 4 && |m| == 2 && |dd| == 2;
      var s := y + "-" + m + "-" + dd;
      assert s[..4] == y && s[5..7] == m && s[8..] == dd;
      s
    else
      y + "-" + m + "-" + dd
  }

  /** time.Parse("2006-01-02", s): succeeds exactly on strings of the shape above whose
      fields name a real date, and the date it reads prints back as s. */
  function ParseDate(s: string): (r: Option<Date>)
    ensures r.Some? ==> IsValidDateFormat(s) && ValidDate(r.value) && FormatDate(r.value) == s
    ensures IsValidDateFormat(s) && r.None? ==>
      !ValidDate(Date(ValueOf(s[..4]), ValueOf(s[5..7]), ValueOf(s[8..])))
  {
    if !IsValidDateFormat(s) then None
    else
      var d := Date(ValueOf(s[..4]), ValueOf(s[5..7]), ValueOf(s[8..]));
      if !ValidDate(d) then None
      else
        ValueOfBound(s[..4]);
        PaddedValueOf(s[..4]);
        PaddedValueOf(s[5..7]);
        PaddedValueOf(s[8..]);
        assert s == s[..4] + "-" + s[5..7] + "-" + s[8..];
        Some(d)
  }

  /** Every date of years 0 to 9999 prints in the checked shape and parses back to itself. */
  lemma FormatParseRoundTrip(d: Date)
    requires ValidDate(d) && 0 <= d.year < 10000
    ensures IsValidDateFormat(FormatDate(d)) && ParseDate(FormatDate(d)) == Some(d)
  {
    var s := FormatDate(d);
    assert s[..4] == LayoutPadded(d.year, 4);
    assert s[5..7] == LayoutPadded(d.month, 2);
    assert s[8..] == LayoutPadded(d.day, 2);
  }

  /** The ISO weekday read off the day number. */
  lemma IsoWeekdayFromDayNumber(d: Date)
    requires ValidDate(d)
    ensures IsoWeekday(d) - 1 == (DayNumber(d) + 6) % 7
  {
    ModAddLeft(DayNumber(d), 6);
  }

  /** The ISO weekday of b, from the ISO weekday of a and the distance between them. */
  lemma IsoWeekdayOffset(a: Date, b: Date)
    requires ValidDate(a) && ValidDate(b)
    ensures IsoWeekday(b) == (IsoWeekday(a) - 1 + DayNumber(b) - DayNumber(a)) % 7 + 1
  {
    IsoWeekdayFromDayNumber(a);
    IsoWeekdayFromDayNumber(b);
    ModAddLeft(DayNumber(a) + 6, DayNumber(b) - DayNumber(a));
  }

  /** Two dates whose Monday-to-Sunday weeks start on the same day share ISO year and week. */
  lemma SameIsoWeek(a: Date, b: Date)
    requires ValidDate(a) && ValidDate(b)
    requires DayNumber(a) - IsoWeekday(a) == DayNumber(b) - IsoWeekday(b)
    ensures IsoWeek(a) == IsoWeek(b)
  {
    DayNumberOrder(IsoThursday(a), IsoThursday(b));
  }

  /** A date whose week's Thursday falls in the first week of January of year y is in week (y, 1). */
  lemma ThursdayInEarlyJanuary(a: Date, y: int, j: int)
    requires ValidDate(a) && 1 <= j <= 7
    requires DayNumber(IsoThursday(a)) == DayNumber(Date(y, 1, j))
    ensures IsoWeek(a) == (y, 1)
  {
    DayNumberOrder(IsoThursday(a), Date(y, 1, j));
  }
}
