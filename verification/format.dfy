/** The time service's custom formats: Python-style directives (%Y, %j, %U, …) and the preset
    output formats. A moment is the broken-down local date and time of a Go time.Time; how Go's
    own layout engine renders a layout for that moment (t.Format) is an input, `layout`. */
module Format {
  import opened Outcome
  import opened Decimal
  import opened Text
  import opened Calendar

  /** A time.Time as seen in its location: local date and clock, and the Unix time in seconds. */
  datatype Moment = Moment(date: Date, hour: int, minute: int, second: int, nanosecond: int, unixSeconds: int)

  predicate ValidMoment(t: Moment) {
    ValidDate(t.date) && 0 <= t.hour < 24 && 0 <= t.minute < 60 && 0 <= t.second < 60 &&
    0 <= t.nanosecond < 1000000000 && InInt64(t.unixSeconds)
  }

  /** t.UnixNano(): seconds * 10^9 + nanoseconds in 64-bit arithmetic. */
  function UnixNano(t: Moment): int {
    WrapInt64(t.unixSeconds * 1000000000 + t.nanosecond)
  }

  /** time.Month's String. */
  const MonthNames: seq<string> := ["January", "February", "March", "April", "May", "June", "July",
    "August", "September", "October", "November", "December"]

  /** time.Weekday's String, indexed by Weekday (Sunday = 0). */
  const DayNames: seq<string> := ["Sunday", "Monday", "Tuesday", "Wednesday", "Thursday", "Friday", "Saturday"]

  /** The letters following '%' that formatWithPythonFormat replaces, in the order it replaces them. */
  const DirectiveLetters: string := "YymBbdjUWVAawuHIpMSfzZcxX%"

  /** The directives whose presence selects the special path. */
  const SpecialDirectives: seq<string> := ["%U", "%W", "%w", "%j", "%V", "%u"]

  /** The Go layouts t.Format is called with for the directives Go renders itself. */
  function LibraryLayout(c: char): string {
    if c == 'z' then "-0700"
    else if c == 'Z' then "MST"
    else if c == 'c' then "Mon Jan _2 15:04:05 2006"
    else if c == 'x' then "01/02/06"
    else "15:04:05"
  }

  predicate IsLibraryDirective(c: char) {
    c == 'z' || c == 'Z' || c == 'c' || c == 'x' || c == 'X'
  }

  /** %I: the hour on a 12-hour clock, where 0 o'clock reads 12. */
  function Hour12(h: int): (r: int)
    requires 0 <= h < 24
    ensures 1 <= r <= 12 && r % 12 == h % 12
  {
    var h12 := h % 12;
    if h12 == 0 then 12 else h12
  }

  /** The weekNumber closure: `offset` is how many days of the year come before its first week
      start (firstDay 0: Sunday, 1: Monday); days before it are in week 0, and the weeks are
      counted from it. Go's truncating `%` and `/` are written out. */
  function WeekNumberClosure(doy: int, jan1Weekday: int, firstDay: int): (w: int)
    ensures doy >= 1 ==> w >= 0
    ensures 1 <= doy <= 366 && 0 <= jan1Weekday < 7 && 0 <= firstDay < 7 ==> w <= 53
    ensures doy >= 1 && 0 <= jan1Weekday < 7 && 0 <= firstDay < 7 ==> (w == 0 <==> doy <= (firstDay - jan1Weekday + 7) % 7)
  {
    var offset := TruncRem(7 - TruncRem(jan1Weekday - firstDay + 7, 7), 7);
    if doy - 1 < offset then 0 else TruncDiv(doy - 1 - offset, 7) + 1
  }

  /** The number of days among days 1..n of a year whose weekday is `firstDay`, when January 1
      falls on `jan1Weekday`: strftime's definition of the week numbers %U and %W. */
  function WeekStartsThrough(n: nat, jan1Weekday: int, firstDay: int): nat {
    if n == 0 then 0
    else WeekStartsThrough(n - 1, jan1Weekday, firstDay) + (if (jan1Weekday + n - 1) % 7 == firstDay then 1 else 0)
  }

  /** The closure counts the week starts from January 1 through the day. */
  lemma {:induction false} WeekNumberClosureCountsWeekStarts(doy: nat, jan1Weekday: int, firstDay: int)
    requires 0 <= jan1Weekday < 7 && (firstDay == 0 || firstDay == 1)
    ensures WeekNumberClosure(doy, jan1Weekday, firstDay) == WeekStartsThrough(doy, jan1Weekday, firstDay)
  {
    if doy > 0 {
      WeekNumberClosureCountsWeekStarts(doy - 1, jan1Weekday, firstDay);
      ClosureStep(doy, jan1Weekday, firstDay);
    }
  }

  /** The closure grows by one exactly on a week start. */
  lemma ClosureStep(doy: nat, jan1Weekday: int, firstDay: int)
    requires 0 <= jan1Weekday < 7 && (firstDay == 0 || firstDay == 1) && doy > 0
    ensures WeekNumberClosure(doy, jan1Weekday, firstDay) ==
      WeekNumberClosure(doy - 1, jan1Weekday, firstDay) + (if (jan1Weekday + doy - 1) % 7 == firstDay then 1 else 0)
  {
    var offset := ClosureOffset(doy, jan1Weekday, firstDay);
    var offset' := ClosureOffset(doy - 1, jan1Weekday, firstDay);
    var n := doy - 1;
    // day doy is a week start exactly when it lies a whole number of weeks after day offset + 1
    StartDayShift(jan1Weekday, offset, firstDay, n);
    if n > offset {
      var q := DivSevenStep(n - offset);
    }
  }

  /** The closure with its offset (the days of the year before the first week start) named, and
      Go's `%` and `/` on the non-negative operands they get here read as Dafny's. */
  lemma ClosureOffset(doy: int, jan1Weekday: int, firstDay: int) returns (offset: int)
    requires 0 <= jan1Weekday < 7 && (firstDay == 0 || firstDay == 1)
    ensures offset == (7 - (jan1Weekday - firstDay + 7) % 7) % 7
    ensures 0 <= offset < 7 && (jan1Weekday + offset) % 7 == firstDay
    ensures WeekNumberClosure(doy, jan1Weekday, firstDay) == if doy - 1 < offset then 0 else (doy - 1 - offset) / 7 + 1
  {
    offset := (7 - (jan1Weekday - firstDay + 7) % 7) % 7;
  }

  lemma StartDayShift(j: int, offset: int, f: int, n: nat)
    requires 0 <= j < 7 && 0 <= offset < 7 && 0 <= f < 7 && (j + offset) % 7 == f
    ensures (j + n) % 7 == f <==> n >= offset && (n - offset) % 7 == 0
  {
    var q := n / 7;
    var r := n % 7;
    assert n == 7 * q + r;
    ModShift(j + r, q);
    assert (j + n) % 7 == (j + r) % 7;
    if n >= offset {
      assert (n - offset) % 7 == (r - offset + 7) % 7 by {
        ModShift(r - offset + 7, q - 1);
      }
    }
  }

  /** A non-negative field printed by fmt.Sprintf("%0<width>d") when it fits the width: exactly
      `width` digits denoting the field. */
  function FixedDigits(n: nat, width: nat): (v: string)
    requires 1 <= width && n < Pow10(width)
    ensures |v| == width && AllDigits(v) && ValueOf(v) == n
  {
    SprintfPaddedWidth(n, width);
    SprintfPadded(n, width)
  }

  lemma DigitsHaveNoPercent(v: string)
    ensures AllDigits(v) ==> '%' !in v
  {
  }

  /** %B and %b: the English month name and its first three letters. */
  function MonthName(month: int, short: bool): (v: string)
    requires 1 <= month <= 12
    ensures '%' !in v && |v| >= 3
    ensures short ==> |v| == 3 && v == MonthNames[month - 1][..3]
    ensures !short ==> v == MonthNames[month - 1]
  {
    var name := MonthNames[month - 1];
    assert forall i :: 0 <= i < 12 ==> '%' !in MonthNames[i] && |MonthNames[i]| >= 3;
    if short then name[..3] else name
  }

  /** %A and %a: the English weekday name and its first three letters. */
  function DayName(weekday: int, short: bool): (v: string)
    requires 0 <= weekday < 7
    ensures '%' !in v && |v| >= 3
    ensures short ==> |v| == 3 && v == DayNames[weekday][..3]
    ensures !short ==> v == DayNames[weekday]
  {
    var name := DayNames[weekday];
    assert forall i :: 0 <= i < 7 ==> '%' !in DayNames[i] && |DayNames[i]| >= 6;
    if short then name[..3] else name
  }

  /** %U (firstDay 0) and %W (firstDay 1): two digits counting the week starts from January 1
      through the day. */
  function WeekOfYearField(d: Date, firstDay: int): (v: string)
    requires ValidDate(d) && (firstDay == 0 || firstDay == 1)
    ensures |v| == 2 && AllDigits(v)
    ensures ValueOf(v) == WeekStartsThrough(DayOfYear(d), Weekday(Jan1(d.year)), firstDay)
  {
    var jan1Weekday := Weekday(Jan1(d.year));
    var w := WeekNumberClosure(DayOfYear(d), jan1Weekday, firstDay);
    WeekNumberClosureCountsWeekStarts(DayOfYear(d), jan1Weekday, firstDay);
    WeekStartsBound(DayOfYear(d), jan1Weekday, firstDay);
    assert Pow10(2) == 100;
    FixedDigits(w, 2)
  }

  lemma {:induction false} WeekStartsBound(n: nat, jan1Weekday: int, firstDay: int)
    ensures WeekStartsThrough(n, jan1Weekday, firstDay) <= n
  {
    if n > 0 {
      WeekStartsBound(n - 1, jan1Weekday, firstDay);
    }
  }

  /** fmt.Sprintf("%0<width>d", n) never produces a '%'. */
  lemma SprintfPaddedNoPercent(n: int, width: int)
    ensures '%' !in SprintfPadded(n, width)
  {
    var v := SprintfPadded(n, width);
    if n < 0 {
      var p := PaddedDigits(-n, width - 1);
      assert v == "-" + p;
      assert forall i :: 1 <= i < |v| ==> v[i] == p[i - 1];
    }
  }

  /** %Y, %y: the year (four digits for years 0 to 9999) and the year modulo 100 (two digits for
      years from 0), with Go's sign handling for earlier years. */
  function YearField(year: int, short: bool): (v: string)
    ensures !short && 0 <= year < 10000 ==> |v| == 4 && AllDigits(v) && ValueOf(v) == year
    ensures short && year >= 0 ==> |v| == 2 && AllDigits(v) && ValueOf(v) == year % 100
    ensures year < 0 && (!short || year % 100 != 0) ==> |v| >= 2 && v[0] == '-'
    ensures '%' !in v
  {
    assert Pow10(2) == 100 && Pow10(4) == 10000;
    var n := if short then TruncRem(year, 100) else year;
    var v := SprintfPadded(n, if short then 2 else 4);
    assert (short && year >= 0 ==> |v| == 2) && (!short && 0 <= year < 10000 ==> |v| == 4) by {
      if short && year >= 0 {
        SprintfPaddedWidth(n, 2);
      } else if !short && 0 <= year < 10000 {
        SprintfPaddedWidth(n, 4);
      }
    }
    SprintfPaddedNoPercent(n, if short then 2 else 4);
    v
  }

  predicate IsDateLetter(c: char) {
    c == 'Y' || c == 'y' || c == 'm' || c == 'B' || c == 'b' || c == 'd' || c == 'j' ||
    c == 'U' || c == 'W' || c == 'V' || c == 'A' || c == 'a' || c == 'w' || c == 'u'
  }

  predicate IsClockLetter(c: char) {
    c == 'H' || c == 'I' || c == 'p' || c == 'M' || c == 'S' || c == 'f'
  }

  /** The replacements of the date directives, from the date alone. */
  function DateDirective(d: Date, c: char): (v: string)
    requires ValidDate(d) && IsDateLetter(c)
    ensures c == 'm' || c == 'd' || c == 'V' || c == 'U' || c == 'W' ==> |v| == 2 && AllDigits(v)
    ensures c == 'Y' || c == 'y' ==> v == YearField(d.year, c == 'y')
    ensures c == 'm' ==> ValueOf(v) == d.month
    ensures c == 'd' ==> ValueOf(v) == d.day
    ensures c == 'V' ==> ValueOf(v) == IsoWeek(d).1
    ensures c == 'U' ==> ValueOf(v) == WeekStartsThrough(DayOfYear(d), Weekday(Jan1(d.year)), 0)
    ensures c == 'W' ==> ValueOf(v) == WeekStartsThrough(DayOfYear(d), Weekday(Jan1(d.year)), 1)
    ensures c == 'j' ==> |v| == 3 && AllDigits(v) && ValueOf(v) == DayOfYear(d)
    ensures c == 'w' ==> v == [DigitChar(Weekday(d))]
    ensures c == 'u' ==> v == [DigitChar(IsoWeekday(d))]
    ensures c == 'B' || c == 'b' ==> v == MonthName(d.month, c == 'b')
    ensures c == 'A' || c == 'a' ==> v == DayName(Weekday(d), c == 'a')
    ensures '%' !in v
  {
    assert Pow10(2) == 100 && Pow10(3) == 1000;
    var v :=
      if c == 'Y' then YearField(d.year, false)
      else if c == 'y' then YearField(d.year, true)
      else if c == 'm' then FixedDigits(d.month, 2)
      else if c == 'B' then MonthName(d.month, false)
      else if c == 'b' then MonthName(d.month, true)
      else if c == 'd' then FixedDigits(d.day, 2)
      else if c == 'j' then FixedDigits(DayOfYear(d), 3)
      else if c == 'U' then WeekOfYearField(d, 0)
      else if c == 'W' then WeekOfYearField(d, 1)
      else if c == 'V' then FixedDigits(IsoWeek(d).1, 2)
      else if c == 'A' then DayName(Weekday(d), false)
      else if c == 'a' then DayName(Weekday(d), true)
      else if c == 'w' then Itoa(Weekday(d))
      else Itoa(if Weekday(d) == 0 then 7 else Weekday(d));
    DigitsHaveNoPercent(v);
    v
  }

  /** The replacements of the clock directives: %H, %M, %S and %I in two digits, %I on a
      12-hour clock, %p AM exactly before noon, %f the microseconds in six digits. */
  function ClockDirective(t: Moment, c: char): (v: string)
    requires ValidMoment(t) && IsClockLetter(c)
    ensures c != 'p' && c != 'f' ==> |v| == 2 && AllDigits(v)
    ensures c == 'H' ==> ValueOf(v) == t.hour
    ensures c == 'I' ==> ValueOf(v) == Hour12(t.hour)
    ensures c == 'M' ==> ValueOf(v) == t.minute
    ensures c == 'S' ==> ValueOf(v) == t.second
    ensures c == 'f' ==> |v| == 6 && AllDigits(v) && ValueOf(v) == t.nanosecond / 1000
    ensures c == 'p' ==> (v == "AM" <==> t.hour < 12) && (v == "PM" <==> t.hour >= 12)
    ensures '%' !in v
  {
    assert Pow10(2) == 100 && Pow10(6) == 1000000;
    var v :=
      if c == 'H' then FixedDigits(t.hour, 2)
      else if c == 'I' then FixedDigits(Hour12(t.hour), 2)
      else if c == 'p' then (if t.hour < 12 then "AM" else "PM")
      else if c == 'M' then FixedDigits(t.minute, 2)
      else if c == 'S' then FixedDigits(t.second, 2)
      else FixedDigits(t.nanosecond / 1000, 6);
    DigitsHaveNoPercent(v);
    v
  }

  /** The replacement formatWithPythonFormat computes for directive `%c` (c a letter of
      DirectiveLetters): the date and clock fields, what Go's layout engine renders for %z %Z
      %c %x %X, and '%' for %%. Only the last two can hold a '%'. */
  function DirectiveValue(t: Moment, c: char, layout: string -> string): (v: string)
    requires ValidMoment(t)
    ensures c == '%' ==> v == "%"
    ensures IsLibraryDirective(c) ==> v == layout(LibraryLayout(c))
    ensures IsDateLetter(c) ==> v == DateDirective(t.date, c)
    ensures IsClockLetter(c) ==> v == ClockDirective(t, c)
    ensures IsDateLetter(c) || IsClockLetter(c) ==> '%' !in v
  {
    if IsDateLetter(c) then DateDirective(t.date, c)
    else if IsClockLetter(c) then ClockDirective(t, c)
    else if IsLibraryDirective(c) then layout(LibraryLayout(c))
    else "%"
  }

  /** The replacements of all directives, in the order of DirectiveLetters. */
  function DirectiveValues(t: Moment, layout: string -> string): (vals: seq<string>)
    requires ValidMoment(t)
    ensures |vals| == |DirectiveLetters|
    ensures forall i :: 0 <= i < |vals| ==> vals[i] == DirectiveValue(t, DirectiveLetters[i], layout)
  {
    seq(|DirectiveLetters|, i requires 0 <= i < |DirectiveLetters| => DirectiveValue(t, DirectiveLetters[i], layout))
  }

  /** Apart from the final '%', the directive letters are ASCII letters. */
  lemma DirectiveLetterFacts()
    ensures |DirectiveLetters| == 26 && DirectiveLetters[25] == '%'
    ensures DirectiveLetters[6] == 'j' && DirectiveLetters[..6] == "YymBbd"
    ensures forall i :: 0 <= i < 25 ==> ('A' <= DirectiveLetters[i] <= 'Z' || 'a' <= DirectiveLetters[i] <= 'z')
    ensures forall i :: 0 <= i < 25 ==>
      IsDateLetter(DirectiveLetters[i]) || IsClockLetter(DirectiveLetters[i]) || IsLibraryDirective(DirectiveLetters[i])
  {
  }

  // ---------------------------------------------------------------------------------------------
  // Replacing directive tokens one kind at a time, and scanning for them once.

  function Directive(c: char): string {
    ['%', c]
  }

  /** The (directive, replacement) pairs for letters and their replacements. */
  function TokenPairs(letters: string, vals: seq<string>): (pairs: seq<(string, string)>)
    requires |letters| == |vals|
    ensures |pairs| == |letters|
    ensures forall i :: 0 <= i < |pairs| ==> pairs[i] == (Directive(letters[i]), vals[i])
  {
    seq(|letters|, i requires 0 <= i < |letters| => (Directive(letters[i]), vals[i]))
  }

  /** The replacement table of the first k pairs, where the first pair for a letter wins. */
  function TokenMap(letters: string, vals: seq<string>, k: nat): (m: map<char, string>)
    requires |letters| == |vals| && k <= |letters|
    ensures forall c :: c in m <==> c in letters[..k]
    ensures forall c :: c in m ==> exists i :: 0 <= i < k && letters[i] == c && c !in letters[..i] && m[c] == vals[i]
    ensures (forall i :: 0 <= i < k ==> '%' !in vals[i]) ==> PercentFree(m)
    decreases k
  {
    if k == 0 then map[]
    else
      assert letters[..k] == letters[..k - 1] + [letters[k - 1]];
      var m := TokenMap(letters, vals, k - 1);
      if letters[k - 1] in m then m else m[letters[k - 1] := vals[k - 1]]
  }

  predicate PercentFree(values: map<char, string>) {
    forall c :: c in values ==> '%' !in values[c]
  }

  /** Scan `s` once from the left: "%c" with c a key of `values` becomes values[c], any other
      character is copied. */
  function ScanWith(s: string, values: map<char, string>): string
    decreases |s|
  {
    if s == [] then []
    else if s[0] == '%' && |s| >= 2 && s[1] in values then values[s[1]] + ScanWith(s[2..], values)
    else [s[0]] + ScanWith(s[1..], values)
  }

  /** No two adjacent '%' characters. */
  predicate NoDoublePercent(s: string)
    decreases |s|
  {
    |s| < 2 || (!(s[0] == '%' && s[1] == '%') && NoDoublePercent(s[1..]))
  }

  lemma NoDoublePercentTail(s: string)
    requires NoDoublePercent(s) && |s| >= 2
    ensures NoDoublePercent(s[1..]) && NoDoublePercent(s[2..])
    ensures s[0] == '%' ==> s[1] != '%'
  {
    assert s[1..][1..] == s[2..];
  }

  lemma {:induction false} NoDoublePercentIsNotContains(s: string)
    ensures NoDoublePercent(s) <==> !Contains(s, "%%")
    decreases |s|
  {
    if |s| >= 2 {
      NoDoublePercentIsNotContains(s[1..]);
      assert StartsWith(s, "%%") <==> s[0] == '%' && s[1] == '%';
    } else {
      NotContainsShort(s, "%%");
    }
  }

  lemma ReplaceAllSkip(s: string, pat: string, rep: string)
    requires pat != [] && s != [] && !StartsWith(s, pat)
    ensures ReplaceAll(s, pat, rep) == [s[0]] + ReplaceAll(s[1..], pat, rep)
  {
  }

  lemma ReplaceAllHit(y: string, pat: string, rep: string)
    requires pat != []
    ensures ReplaceAll(pat + y, pat, rep) == rep + ReplaceAll(y, pat, rep)
  {
    assert (pat + y)[..|pat|] == pat;
    assert (pat + y)[|pat|..] == y;
  }

  /** Replacing a further directive in a scanned text is the scan with that directive added. */
  lemma {:induction false} ScanStep(s: string, values: map<char, string>, c: char, v: string)
    requires NoDoublePercent(s) && PercentFree(values)
    requires c != '%' && c !in values && '%' !in v
    ensures ReplaceAll(ScanWith(s, values), Directive(c), v) == ScanWith(s, values[c := v])
    decreases |s|
  {
    var values' := values[c := v];
    var pat := Directive(c);
    if s == [] {
    } else if |s| == 1 {
      assert s[1..] == [];
      assert ScanWith(s, values) == s;
      assert ScanWith(s, values') == s;
      assert ReplaceAll(s, pat, v) == s;
    } else {
      NoDoublePercentTail(s);
      if s[0] == '%' && s[1] in values {
        var x := values[s[1]];
        ScanStep(s[2..], values, c, v);
        ReplaceAllAfterPrefix(x, ScanWith(s[2..], values), pat, v);
      } else if s[0] == '%' && s[1] == c {
        var rest := ScanWith(s[2..], values);
        assert s[1..][1..] == s[2..];
        assert ScanWith(s[1..], values) == [c] + rest;
        assert ScanWith(s, values) == pat + rest;
        ReplaceAllHit(rest, pat, v);
        ScanStep(s[2..], values, c, v);
      } else if s[0] == '%' {
        // '%' followed by a character that is neither '%', c nor a key: both scans copy it
        var rest := ScanWith(s[1..], values);
        assert s[1..][1..] == s[2..];
        assert ScanWith(s[1..], values) == [s[1]] + ScanWith(s[2..], values);
        assert ScanWith(s, values) == "%" + rest;
        assert !StartsWith("%" + rest, pat) by {
          assert ("%" + rest)[1] == s[1];
        }
        ReplaceAllSkip("%" + rest, pat, v);
        assert ("%" + rest)[1..] == rest;
        ScanStep(s[1..], values, c, v);
      } else {
        var rest := ScanWith(s[1..], values);
        ScanStep(s[1..], values, c, v);
        ReplaceAllAfterPrefix([s[0]], rest, pat, v);
      }
    }
  }

  /** Scanning a text without "%%", with percent-free replacements and no '%' key, yields no "%%". */
  lemma {:induction false} ScanNoDoublePercent(s: string, values: map<char, string>)
    requires NoDoublePercent(s) && PercentFree(values) && '%' !in values
    ensures NoDoublePercent(ScanWith(s, values))
    decreases |s|
  {
    if |s| >= 2 {
      NoDoublePercentTail(s);
      if s[0] == '%' && s[1] in values {
        ScanNoDoublePercent(s[2..], values);
        PercentFreePrefix(values[s[1]], ScanWith(s[2..], values));
      } else {
        ScanNoDoublePercent(s[1..], values);
        var rest := ScanWith(s[1..], values);
        assert s[1..][1..] == s[2..];
        if s[0] == '%' {
          assert rest == [s[1]] + ScanWith(s[2..], values);
        }
        assert ([s[0]] + rest)[1..] == rest;
      }
    } else if |s| == 1 {
      assert ScanWith(s, values) == s;
    }
  }

  lemma {:induction false} PercentFreePrefix(x: string, y: string)
    requires '%' !in x && NoDoublePercent(y)
    ensures NoDoublePercent(x + y)
    decreases |x|
  {
    if x != [] {
      PercentFreePrefix(x[1..], y);
      assert (x + y)[1..] == x[1..] + y;
    } else {
      assert x + y == y;
    }
  }

  /** A '%' key is never used on a text without "%%". */
  lemma {:induction false} ScanIgnoresPercentKey(s: string, values: map<char, string>, v: string)
    requires NoDoublePercent(s) && '%' !in values
    ensures ScanWith(s, values['%' := v]) == ScanWith(s, values)
    decreases |s|
  {
    if |s| >= 2 {
      NoDoublePercentTail(s);
      if s[0] == '%' && s[1] in values {
        ScanIgnoresPercentKey(s[2..], values, v);
      } else {
        ScanIgnoresPercentKey(s[1..], values, v);
      }
    }
  }

  lemma {:induction false} ScanEmptyTable(s: string)
    ensures ScanWith(s, map[]) == s
    decreases |s|
  {
    if s != [] {
      ScanEmptyTable(s[1..]);
    }
  }

  /** A scanned text holds no token of a letter the table has. */
  lemma {:induction false} ScanNoKeyToken(s: string, values: map<char, string>, c: char)
    requires NoDoublePercent(s) && PercentFree(values) && c in values
    ensures !Contains(ScanWith(s, values), Directive(c))
    decreases |s|
  {
    var pat := Directive(c);
    if s == [] {
      NotContainsShort([], pat);
    } else if |s| == 1 {
      assert ScanWith(s, values) == s;
      NotContainsShort(s, pat);
    } else {
      NoDoublePercentTail(s);
      if s[0] == '%' && s[1] in values {
        ScanNoKeyToken(s[2..], values, c);
        PercentFreeNoToken(values[s[1]], ScanWith(s[2..], values), pat);
      } else if s[0] == '%' {
        var rest := ScanWith(s[1..], values);
        assert s[1..][1..] == s[2..];
        assert rest == [s[1]] + ScanWith(s[2..], values);
        ScanNoKeyToken(s[1..], values, c);
        assert !StartsWith("%" + rest, pat) by {
          assert ("%" + rest)[1] == s[1];
        }
        assert ("%" + rest)[1..] == rest;
      } else {
        ScanNoKeyToken(s[1..], values, c);
        PercentFreeNoToken([s[0]], ScanWith(s[1..], values), pat);
      }
    }
  }

  lemma {:induction false} PercentFreeNoToken(x: string, y: string, pat: string)
    requires pat != [] && pat[0] == '%' && '%' !in x && !Contains(y, pat)
    ensures !Contains(x + y, pat)
    decreases |x|
  {
    if x != [] {
      PercentFreeNoToken(x[1..], y, pat);
      assert (x + y)[1..] == x[1..] + y;
      assert (x + y)[0] != pat[0];
    } else {
      assert x + y == y;
    }
  }

  /** The first k steps of a replace chain over letters other than '%', with percent-free
      replacements, have the effect of one scan with those k directives (the first replacement
      of a repeated letter winning), as long as the text has no "%%". */
  lemma {:induction false} ChainIsScan(s: string, letters: string, vals: seq<string>, k: nat)
    requires |letters| == |vals| && k <= |letters| && NoDoublePercent(s)
    requires forall i :: 0 <= i < k ==> letters[i] != '%' && '%' !in vals[i]
    ensures ReplaceChain(s, TokenPairs(letters, vals)[..k]) == ScanWith(s, TokenMap(letters, vals, k))
  {
    if k == 0 {
      ChainIsScanEmpty(s, letters, vals);
    } else {
      var j := k - 1;
      ChainIsScan(s, letters, vals, j);
      ChainScanStep(s, letters, vals, j);
    }
  }

  /** No steps leave the text as it is, and so does a scan with an empty table. */
  lemma ChainIsScanEmpty(s: string, letters: string, vals: seq<string>)
    requires |letters| == |vals|
    ensures ReplaceChain(s, TokenPairs(letters, vals)[..0]) == ScanWith(s, TokenMap(letters, vals, 0))
  {
    assert TokenPairs(letters, vals)[..0] == [];
    assert TokenMap(letters, vals, 0) == map[];
    ScanEmptyTable(s);
  }

  /** One more step of the chain adds the k-th directive to the scan's table. */
  lemma ChainScanStep(s: string, letters: string, vals: seq<string>, j: nat)
    requires |letters| == |vals| && j < |letters| && NoDoublePercent(s)
    requires forall i :: 0 <= i <= j ==> letters[i] != '%' && '%' !in vals[i]
    requires ReplaceChain(s, TokenPairs(letters, vals)[..j]) == ScanWith(s, TokenMap(letters, vals, j))
    ensures ReplaceChain(s, TokenPairs(letters, vals)[..j + 1]) == ScanWith(s, TokenMap(letters, vals, j + 1))
  {
    var k := j + 1;
    var m := TokenMap(letters, vals, j);
    var c, v := letters[j], vals[j];
    var next := if c in m then m else m[c := v];
    assert ReplaceChain(s, TokenPairs(letters, vals)[..k]) == ReplaceAll(ScanWith(s, m), Directive(c), v) by {
      TokenChainStep(s, letters, vals, k);
    }
    assert TokenMap(letters, vals, k) == next && PercentFree(m) by {
      TokenMapStep(letters, vals, k);
    }
    ScanAddToken(s, m, c, v);
  }

  /** Replacing a further directive in a scanned text is the scan with that directive added to
      the table, unless the table has the letter already (the earlier replacement won). */
  lemma ScanAddToken(s: string, m: map<char, string>, c: char, v: string)
    requires NoDoublePercent(s) && PercentFree(m) && c != '%' && '%' !in v
    ensures ReplaceAll(ScanWith(s, m), Directive(c), v) == ScanWith(s, if c in m then m else m[c := v])
  {
    if c in m {
      ScanNoKeyToken(s, m, c);
      ReplaceAbsent(ScanWith(s, m), Directive(c), v);
    } else {
      ScanStep(s, m, c, v);
    }
  }

  /** Step k of the replace chain replaces the k-th directive in what the earlier steps made. */
  lemma TokenChainStep(s: string, letters: string, vals: seq<string>, k: nat)
    requires |letters| == |vals| && 0 < k <= |letters|
    ensures ReplaceChain(s, TokenPairs(letters, vals)[..k]) ==
      ReplaceAll(ReplaceChain(s, TokenPairs(letters, vals)[..k - 1]), Directive(letters[k - 1]), vals[k - 1])
  {
    var pairs := TokenPairs(letters, vals);
    ReplaceChainLast(s, pairs[..k]);
    assert pairs[..k][..k - 1] == pairs[..k - 1];
  }

  /** The table of the first k directives adds the k-th letter unless an earlier one claimed it. */
  lemma TokenMapStep(letters: string, vals: seq<string>, k: nat)
    requires |letters| == |vals| && 0 < k <= |letters|
    requires forall i :: 0 <= i < k ==> '%' !in vals[i]
    ensures PercentFree(TokenMap(letters, vals, k - 1))
    ensures TokenMap(letters, vals, k) ==
      var m := TokenMap(letters, vals, k - 1);
      if letters[k - 1] in m then m else m[letters[k - 1] := vals[k - 1]]
  {
  }

  /** A leading '%' survives the first k steps of a replace chain when, at each step, the text
      after it does not start with that step's letter. */
  lemma {:induction false} ChainKeepsLeadingPercent(s: string, letters: string, vals: seq<string>, k: nat)
    requires |letters| == |vals| && k <= |letters|
    requires forall j :: 0 <= j < k ==> letters[j] != '%' && LeadsWithOther(ReplaceChain(s, TokenPairs(letters, vals)[..j]), letters[j])
    ensures ReplaceChain("%" + s, TokenPairs(letters, vals)[..k]) == "%" + ReplaceChain(s, TokenPairs(letters, vals)[..k])
  {
    var pairs := TokenPairs(letters, vals);
    if k > 0 {
      ChainKeepsLeadingPercent(s, letters, vals, k - 1);
      assert pairs[..k] == pairs[..k - 1] + [pairs[k - 1]];
      ReplaceChainSnoc(s, pairs[..k - 1], pairs[k - 1]);
      ReplaceChainSnoc("%" + s, pairs[..k - 1], pairs[k - 1]);
      var cur := ReplaceChain(s, pairs[..k - 1]);
      assert LeadsWithOther(cur, letters[k - 1]);
      var pat := Directive(letters[k - 1]);
      assert !StartsWith("%" + cur, pat) by {
        assert ("%" + cur)[1] == cur[0];
      }
      ReplaceAllSkip("%" + cur, pat, vals[k - 1]);
      assert ("%" + cur)[1..] == cur;
    }
  }

  predicate LeadsWithOther(x: string, c: char) {
    x != [] && x[0] != c
  }

  // ---------------------------------------------------------------------------------------------
  // formatWithPythonFormat

  /** formatWithPythonFormat hands formats without any special directive to Go's layout engine
      after convertPythonFormatToGo has rewritten them. */
  datatype Rendering = Text(text: string) | ConvertedLayout(pythonFormat: string)

  predicate NeedsSpecialHandling(fmt: string) {
    exists i :: 0 <= i < |SpecialDirectives| && Contains(fmt, SpecialDirectives[i])
  }

  /** The (directive, replacement) pairs of the special path, in order. */
  function DirectivePairs(t: Moment, layout: string -> string): seq<(string, string)>
    requires ValidMoment(t)
  {
    TokenPairs(DirectiveLetters, DirectiveValues(t, layout))
  }

  /** The special path as written: each directive in turn replaced everywhere in the current text.
      Its own contract only covers a format without '%', which formatWithPythonFormat never sends
      here; what the chain does to directives is stated by PipelineAgreesWithScan (formats without
      "%%") and DoublePercentCounterexample (the "%%j" case). */
  function ReplacePipeline(t: Moment, fmt: string, layout: string -> string): (s: string)
    requires ValidMoment(t)
    ensures '%' !in fmt ==> s == fmt
  {
    var pairs := DirectivePairs(t, layout);
    assert '%' !in fmt ==> ReplaceChain(fmt, pairs) == fmt by {
      if '%' !in fmt {
        assert forall i :: 0 <= i < |pairs| ==> pairs[i].0 != [] && pairs[i].0[0] !in fmt by {
          forall i | 0 <= i < |pairs| ensures pairs[i].0 != [] && pairs[i].0[0] !in fmt {
            assert pairs[i].0 == Directive(DirectiveLetters[i]);
          }
        }
        ReplaceChainUntouched(fmt, pairs);
      }
    }
    ReplaceChain(fmt, pairs)
  }

  /** What formatWithPythonFormat returns, as written. */
  function PythonFormatAsWritten(t: Moment, fmt: string, layout: string -> string): (r: Rendering)
    requires ValidMoment(t)
    ensures r.ConvertedLayout? <==> fmt != "%c" && fmt != "%x" && fmt != "%X" && !NeedsSpecialHandling(fmt)
    ensures r.ConvertedLayout? ==> r.pythonFormat == fmt
    ensures r.Text? && fmt != "%c" && fmt != "%x" && fmt != "%X" && !Contains(fmt, "%%") && LibraryRendersNoPercent(layout)
      ==> r.text == ScanFormat(t, fmt, layout)
  {
    assert !Contains(fmt, "%%") && LibraryRendersNoPercent(layout) ==>
      ReplacePipeline(t, fmt, layout) == ScanFormat(t, fmt, layout) by {
      if !Contains(fmt, "%%") && LibraryRendersNoPercent(layout) {
        PipelineAgreesWithScan(t, fmt, layout);
      }
    }
    if fmt == "%c" then Text(layout("Mon Jan 2 15:04:05 2006"))
    else if fmt == "%x" then Text(layout("01/02/06"))
    else if fmt == "%X" then Text(layout("15:04:05"))
    else if !NeedsSpecialHandling(fmt) then ConvertedLayout(fmt)
    else Text(ReplacePipeline(t, fmt, layout))
  }

  /** formatWithPythonFormat: the whole-format shortcuts, the scan for a special directive, and
      then the replace loop over the directive list, skipping directives no longer present. */
  method FormatWithPythonFormat(t: Moment, fmt: string, layout: string -> string) returns (r: Rendering)
    requires ValidMoment(t)
    ensures r == PythonFormatAsWritten(t, fmt, layout)
  {
    if fmt == "%c" {
      return Text(layout("Mon Jan 2 15:04:05 2006"));
    } else if fmt == "%x" {
      return Text(layout("01/02/06"));
    } else if fmt == "%X" {
      return Text(layout("15:04:05"));
    }
    var needsSpecialHandling := false;
    var k := 0;
    while k < |SpecialDirectives| && !needsSpecialHandling
      invariant 0 <= k <= |SpecialDirectives|
      invariant needsSpecialHandling <==> exists i :: 0 <= i < k && Contains(fmt, SpecialDirectives[i])
    {
      if Contains(fmt, SpecialDirectives[k]) {
        needsSpecialHandling := true;
      }
      k := k + 1;
    }
    if !needsSpecialHandling {
      return ConvertedLayout(fmt);
    }
    var result := ReplaceDirectives(t, fmt, layout);
    r := Text(result);
  }

  /** The replace loop of formatWithPythonFormat: each directive of the list in turn, when still
      present, replaced everywhere by its value. */
  method ReplaceDirectives(t: Moment, fmt: string, layout: string -> string) returns (result: string)
    requires ValidMoment(t)
    ensures result == ReplacePipeline(t, fmt, layout)
  {
    var pairs := DirectivePairs(t, layout);
    result := fmt;
    var i := 0;
    while i < |DirectiveLetters|
      invariant 0 <= i <= |DirectiveLetters| == |pairs|
      invariant ReplaceChain(fmt, pairs) == ReplaceChain(result, pairs[i..])
    {
      var directive := Directive(DirectiveLetters[i]);
      assert pairs[i] == (directive, DirectiveValue(t, DirectiveLetters[i], layout));
      assert pairs[i..][1..] == pairs[i + 1..];
      if !Contains(result, directive) {
        ReplaceAbsent(result, directive, pairs[i].1);
      } else {
        var replacement := DirectiveValue(t, DirectiveLetters[i], layout);
        result := ReplaceAll(result, directive, replacement);
      }
      i := i + 1;
    }
    assert pairs[i..] == [];
  }

  /** The special path read as one scan: every directive token replaced where it stands, "%%"
      giving '%'. */
  function ScanFormat(t: Moment, fmt: string, layout: string -> string): string
    requires ValidMoment(t)
  {
    ScanWith(fmt, TokenMap(DirectiveLetters, DirectiveValues(t, layout), |DirectiveLetters|))
  }

  /** The scan replaces a directive token by its value ("%%" by '%') and goes on after it. */
  lemma ScanDirectiveToken(t: Moment, c: char, s: string, layout: string -> string)
    requires ValidMoment(t) && c in DirectiveLetters
    ensures ScanFormat(t, Directive(c) + s, layout) == DirectiveValue(t, c, layout) + ScanFormat(t, s, layout)
  {
    var m := TokenMap(DirectiveLetters, DirectiveValues(t, layout), |DirectiveLetters|);
    assert c in m;
    var i :| 0 <= i < |DirectiveLetters| && DirectiveLetters[i] == c && m[c] == DirectiveValues(t, layout)[i];
    assert (Directive(c) + s)[2..] == s;
  }

  /** Go's layout engine renders the layouts of %z %Z %c %x %X without a '%'. */
  predicate LibraryRendersNoPercent(layout: string -> string) {
    forall c :: IsLibraryDirective(c) ==> '%' !in layout(LibraryLayout(c))
  }

  /** The first 25 replacements hold no '%' and their letters are neither '%' nor digits; the
      last is "%%" itself. */
  lemma DirectiveValuesFacts(t: Moment, layout: string -> string)
    requires ValidMoment(t) && LibraryRendersNoPercent(layout)
    ensures var vals := DirectiveValues(t, layout);
      (forall i :: 0 <= i < 25 ==> DirectiveLetters[i] != '%' && !IsDigit(DirectiveLetters[i]) && '%' !in vals[i]) &&
      vals[25] == "%" && vals[6] == DirectiveValue(t, 'j', layout) && |vals[6]| == 3 && AllDigits(vals[6])
    ensures |DirectiveLetters| == 26 && DirectiveLetters[25] == '%'
    ensures DirectiveLetters[6] == 'j' && 'j' !in DirectiveLetters[..6]
  {
    var vals := DirectiveValues(t, layout);
    DirectiveLetterFacts();
    assert vals[6] == DateDirective(t.date, 'j');
    forall i | 0 <= i < 25
      ensures DirectiveLetters[i] != '%' && !IsDigit(DirectiveLetters[i]) && '%' !in vals[i]
    {
      var c := DirectiveLetters[i];
      assert IsDateLetter(c) || IsClockLetter(c) || IsLibraryDirective(c);
    }
  }

  /** A replace chain whose last pair is ("%%", "%") equals the scan with the full table on a text
      without "%%", when the other letters are not '%' and their replacements hold none. */
  lemma {:induction false} FullChainIsScan(s: string, letters: string, vals: seq<string>)
    requires |letters| == |vals| >= 1 && NoDoublePercent(s)
    requires letters[|letters| - 1] == '%' && vals[|vals| - 1] == "%"
    requires forall i :: 0 <= i < |letters| - 1 ==> letters[i] != '%' && '%' !in vals[i]
    ensures ReplaceChain(s, TokenPairs(letters, vals)) == ScanWith(s, TokenMap(letters, vals, |letters|))
  {
    var n := |letters| - 1;
    var pairs := TokenPairs(letters, vals);
    ChainIsScan(s, letters, vals, n);
    var m := TokenMap(letters, vals, n);
    var scanned := ScanWith(s, m);
    ReplaceChainLast(s, pairs);
    assert pairs[n] == ("%%", "%");
    assert '%' !in m;
    ScanNoDoublePercent(s, m);
    NoDoublePercentIsNotContains(scanned);
    ReplaceAbsent(scanned, "%%", "%");
    ScanIgnoresPercentKey(s, m, "%");
  }

  /** On a format without "%%", and with Go rendering %z %Z %c %x %X without a '%', the replace
      loop gives exactly the token scan. */
  lemma PipelineAgreesWithScan(t: Moment, fmt: string, layout: string -> string)
    requires ValidMoment(t) && !Contains(fmt, "%%") && LibraryRendersNoPercent(layout)
    ensures ReplacePipeline(t, fmt, layout) == ScanFormat(t, fmt, layout)
  {
    DirectiveValuesFacts(t, layout);
    NoDoublePercentIsNotContains(fmt);
    FullChainIsScan(fmt, DirectiveLetters, DirectiveValues(t, layout));
  }

  /** What the first j steps of a replace chain make of a lone token "%c", where c first occurs
      at position ic and its replacement there holds no '%'. */
  lemma TokenAfterSteps(letters: string, vals: seq<string>, c: char, ic: nat, j: nat)
    requires |letters| == |vals| && ic < |letters| && j <= |letters| && letters[ic] == c && c !in letters[..ic] && c != '%'
    requires forall i :: 0 <= i < j ==> letters[i] != '%' && '%' !in vals[i]
    ensures ReplaceChain(Directive(c), TokenPairs(letters, vals)[..j]) == (if j <= ic then Directive(c) else vals[ic])
  {
    assert NoDoublePercent(Directive(c));
    ChainIsScan(Directive(c), letters, vals, j);
    var m := TokenMap(letters, vals, j);
    if j <= ic {
      assert c !in m;
      assert Directive(c)[1..] == [c] && [c][1..] == [];
      assert ScanWith([c], m) == [c];
    } else {
      assert letters[..j][ic] == c;
      var i :| 0 <= i < j && letters[i] == c && c !in letters[..i] && m[c] == vals[i];
      assert i == ic;
      assert Directive(c)[2..] == [];
    }
  }

  /** Through the first n steps, the text after a leading '%' never starts with the letter
      being replaced. */
  lemma TokenStepsLeadWithOther(letters: string, vals: seq<string>, c: char, ic: nat, n: nat)
    requires |letters| == |vals| && n <= |letters|
    requires forall i :: 0 <= i < n ==> letters[i] != '%' && !IsDigit(letters[i]) && '%' !in vals[i]
    requires ic < n && letters[ic] == c && c !in letters[..ic] && c != '%'
    requires vals[ic] != [] && AllDigits(vals[ic])
    ensures forall j :: 0 <= j < n ==>
      letters[j] != '%' && LeadsWithOther(ReplaceChain(Directive(c), TokenPairs(letters, vals)[..j]), letters[j])
  {
    forall j | 0 <= j < n
      ensures letters[j] != '%' && LeadsWithOther(ReplaceChain(Directive(c), TokenPairs(letters, vals)[..j]), letters[j])
    {
      TokenAfterSteps(letters, vals, c, ic, j);
      assert IsDigit(vals[ic][0]);
    }
  }

  /** A replace chain ending with ("%%", "%") on "%%c", for a letter c whose replacement is
      digits: the chain keeps the first '%' and turns "%c" into the digits. */
  lemma PercentTokenChain(letters: string, vals: seq<string>, c: char, ic: nat)
    requires |letters| == |vals| >= 1
    requires letters[|letters| - 1] == '%' && vals[|vals| - 1] == "%"
    requires forall i :: 0 <= i < |letters| - 1 ==> letters[i] != '%' && !IsDigit(letters[i]) && '%' !in vals[i]
    requires ic < |letters| - 1 && letters[ic] == c && c !in letters[..ic]
    requires vals[ic] != [] && AllDigits(vals[ic])
    ensures ReplaceChain("%" + Directive(c), TokenPairs(letters, vals)) == "%" + vals[ic]
  {
    var n := |letters| - 1;
    var pairs := TokenPairs(letters, vals);
    TokenStepsLeadWithOther(letters, vals, c, ic, n);
    ChainKeepsLeadingPercent(Directive(c), letters, vals, n);
    TokenAfterSteps(letters, vals, c, ic, n);
    var x := "%" + vals[ic];
    assert !Contains(x, "%%") by {
      DigitsNoDoublePercent(vals[ic]);
      assert x[1..] == vals[ic];
      NoDoublePercentIsNotContains(x);
    }
    ReplaceChainLast("%" + Directive(c), pairs);
    assert pairs[n] == ("%%", "%");
    ReplaceAbsent(x, "%%", "%");
  }

  /** The scan reads "%%c" as '%' and copies c, when '%' maps to itself and c is not '%'. */
  lemma PercentTokenScan(letters: string, vals: seq<string>, c: char)
    requires |letters| == |vals| >= 1
    requires letters[|letters| - 1] == '%' && vals[|vals| - 1] == "%"
    requires forall i :: 0 <= i < |letters| - 1 ==> letters[i] != '%'
    requires c != '%'
    ensures ScanWith("%" + Directive(c), TokenMap(letters, vals, |letters|)) == "%" + [c]
  {
    var n := |letters| - 1;
    assert '%' !in TokenMap(letters, vals, n);
    var values := TokenMap(letters, vals, n + 1);
    assert values['%'] == "%";
    assert "%" + Directive(c) == ['%', '%', c] && "%" + [c] == ['%', c];
    ScanPercentToken(c, values);
  }

  lemma ScanPercentToken(c: char, values: map<char, string>)
    requires '%' in values && values['%'] == "%"
    ensures ScanWith(['%', '%', c], values) == ['%', c]
  {
    var s := ['%', '%', c];
    assert s[2..] == [c];
    assert [c][1..] == [];
    assert ScanWith([c], values) == [c] + ScanWith([], values);
  }

  /** On "%%j", the replace loop first turns the "%j" inside it into the day of the year, and
      "%%" is gone by the time its turn comes: the result is '%' and the day of the year, where
      the scan gives the literal text "%j". */
  lemma DoublePercentCounterexample(t: Moment, layout: string -> string)
    requires ValidMoment(t) && LibraryRendersNoPercent(layout)
    ensures ReplacePipeline(t, "%%j", layout) == "%" + DirectiveValue(t, 'j', layout)
    ensures ScanFormat(t, "%%j", layout) == "%j"
  {
    DoublePercentPipeline(t, layout);
    DoublePercentScan(t, layout);
  }

  lemma DoublePercentPipeline(t: Moment, layout: string -> string)
    requires ValidMoment(t) && LibraryRendersNoPercent(layout)
    ensures ReplacePipeline(t, "%%j", layout) == "%" + DirectiveValue(t, 'j', layout)
  {
    var L := DirectiveLetters;
    var vals := DirectiveValues(t, layout);
    DirectiveValuesFacts(t, layout);
    assert "%%j" == "%" + Directive('j');
    PercentTokenChain(L, vals, 'j', 6);
  }

  lemma DoublePercentScan(t: Moment, layout: string -> string)
    requires ValidMoment(t)
    ensures ScanFormat(t, "%%j", layout) == "%j"
  {
    assert "%" + Directive('j') == "%%j" && "%" + ['j'] == "%j";
    var vals := DirectiveValues(t, layout);
    DirectiveLetterFacts();
    assert vals[25] == DirectiveValue(t, '%', layout);
    PercentTokenScan(DirectiveLetters, vals, 'j');
  }

  lemma {:induction false} DigitsNoDoublePercent(s: string)
    requires AllDigits(s)
    ensures NoDoublePercent(s)
    decreases |s|
  {
    if |s| >= 2 {
      DigitsNoDoublePercent(s[1..]);
    }
  }

  /** formatWithPythonFormat with the special path read as one scan, so that "%%" is a literal
      '%' wherever it stands. */
  function PythonFormat(t: Moment, fmt: string, layout: string -> string): (r: Rendering)
    requires ValidMoment(t)
    ensures r.ConvertedLayout? <==> fmt != "%c" && fmt != "%x" && fmt != "%X" && !NeedsSpecialHandling(fmt)
    ensures r.ConvertedLayout? ==> r.pythonFormat == fmt
    ensures !Contains(fmt, "%%") && LibraryRendersNoPercent(layout) ==> r == PythonFormatAsWritten(t, fmt, layout)
  {
    assert !Contains(fmt, "%%") && LibraryRendersNoPercent(layout) ==>
      ReplacePipeline(t, fmt, layout) == ScanFormat(t, fmt, layout) by {
      if !Contains(fmt, "%%") && LibraryRendersNoPercent(layout) {
        PipelineAgreesWithScan(t, fmt, layout);
      }
    }
    if fmt == "%c" then Text(layout("Mon Jan 2 15:04:05 2006"))
    else if fmt == "%x" then Text(layout("01/02/06"))
    else if fmt == "%X" then Text(layout("15:04:05"))
    else if !NeedsSpecialHandling(fmt) then ConvertedLayout(fmt)
    else Text(ScanFormat(t, fmt, layout))
  }

  /** Go's layout "2006-01-02 15:04:05" for a moment: the date as "2006-01-02" prints it, a space,
      and the clock. */
  function DatetimeText(t: Moment): (s: string)
    requires ValidMoment(t)
    ensures 0 <= t.date.year < 10000 ==>
      |s| == 19 && ParseDate(s[..10]) == Some(t.date) && s[10] == ' ' && s[11..] == ClockText(t.hour, t.minute, t.second)
  {
    var date := FormatDate(t.date);
    var clock := ClockText(t.hour, t.minute, t.second);
    if 0 <= t.date.year < 10000 then
      FormatParseRoundTrip(t.date);
      assert (date + " " + clock)[..10] == date;
      date + " " + clock
    else
      date + " " + clock
  }

  /** The clock part of that layout, "15:04:05": hour, minute and second in two digits each,
      separated by ':'. */
  function ClockText(hour: int, minute: int, second: int): (s: string)
    requires 0 <= hour < 24 && 0 <= minute < 60 && 0 <= second < 60
    ensures |s| == 8 && s[2] == ':' && s[5] == ':'
    ensures AllDigits(s[..2]) && ValueOf(s[..2]) == hour
    ensures AllDigits(s[3..5]) && ValueOf(s[3..5]) == minute
    ensures AllDigits(s[6..]) && ValueOf(s[6..]) == second
  {
    var h, m, sec := LayoutPadded(hour, 2), LayoutPadded(minute, 2), LayoutPadded(second, 2);
    TwoDigitField(hour);
    TwoDigitField(minute);
    TwoDigitField(second);
    var s := h + ":" + m + ":" + sec;
    assert s[..2] == h && s[3..5] == m && s[6..] == sec;
    s
  }

  /** A number below 100 is laid out in exactly two digits. */
  lemma TwoDigitField(n: int)
    requires 0 <= n < 100
    ensures |LayoutPadded(n, 2)| == 2
  {
    assert Pow10(2) == 100;
    DigitsLength(n, 2);
  }

  /** The Go layouts of the presets. */
  const DatetimeLayout: string := "2006-01-02 15:04:05"
  const Rfc3339Layout: string := "2006-01-02T15:04:05Z07:00"

  /** formatTime: the preset formats, the Unix timestamps, and the custom format (through
      formatWithPythonFormat as written); an unknown preset or an empty custom format falls back
      to the datetime layout. */
  function FormatTime(t: Moment, format: string, customFormat: string, layout: string -> string): (r: Rendering)
    requires ValidMoment(t)
    ensures format == "date_only" ==> r == Text(layout("2006-01-02"))
    ensures format == "time_only" ==> r == Text(layout("15:04:05"))
    ensures format == "human" ==> r == Text(layout("2006年01月02日 15时04分05秒"))
    ensures format == "timestamp" ==> r == Text(Itoa(t.unixSeconds))
    ensures format == "timestamp_ms" ==> r == Text(Itoa(TruncDiv(UnixNano(t), 1000000)))
    ensures format == "custom" && customFormat != "" ==> r == PythonFormatAsWritten(t, customFormat, layout)
    ensures format == "custom" && customFormat != "" && !Contains(customFormat, "%%") && LibraryRendersNoPercent(layout) ==>
      r == PythonFormat(t, customFormat, layout)
    ensures format == "iso" || format == "rfc3339" ==> r == Text(layout(Rfc3339Layout))
    ensures format !in {"date_only", "time_only", "iso", "rfc3339", "human", "timestamp", "timestamp_ms", "custom"} ==>
      r == Text(layout(DatetimeLayout))
    ensures format == "custom" && customFormat == "" ==> r == Text(layout(DatetimeLayout))
  {
    if format == "date_only" then Text(layout("2006-01-02"))
    else if format == "time_only" then Text(layout("15:04:05"))
    else if format == "datetime" then Text(layout(DatetimeLayout))
    else if format == "iso" then Text(layout(Rfc3339Layout))
    else if format == "rfc3339" then Text(layout(Rfc3339Layout))
    else if format == "human" then Text(layout("2006年01月02日 15时04分05秒"))
    else if format == "timestamp" then Text(Itoa(t.unixSeconds))
    else if format == "timestamp_ms" then Text(Itoa(TruncDiv(UnixNano(t), 1000000)))
    else if format == "custom" then
      (if customFormat != "" then PythonFormatAsWritten(t, customFormat, layout) else Text(layout(DatetimeLayout)))
    else Text(layout(DatetimeLayout))
  }

  /** For moments from 1970 until 64-bit nanoseconds run out (in 2262), the millisecond timestamp
      is the second timestamp times 1000 plus the whole milliseconds. */
  lemma TimestampMillis(t: Moment)
    requires ValidMoment(t) && 0 <= t.unixSeconds && t.unixSeconds * 1000000000 + t.nanosecond < TwoTo63
    ensures TruncDiv(UnixNano(t), 1000000) == t.unixSeconds * 1000 + t.nanosecond / 1000000
    ensures TruncDiv(TruncDiv(UnixNano(t), 1000000), 1000) == t.unixSeconds
  {
    var n := t.unixSeconds * 1000000000 + t.nanosecond;
    assert UnixNano(t) == n;
    assert n == (t.unixSeconds * 1000 + t.nanosecond / 1000000) * 1000000 + t.nanosecond % 1000000;
  }
}
