/** The working-day calculator of the time service: every day from a start date to an end date
    is a rest day or a working day, decided first by a seven-character weekly pattern (Monday
    first, '1' marking a rest day), then by a list of dates to treat as rest days, and last by a
    list of dates to treat as working days. */
module Workdays {
  import opened Outcome
  import opened Calendar
  import opened Weeks
  import opened Text

  /** The pattern used when the request gives none: Saturday and Sunday are rest days. */
  const DefaultRestPattern: string := "0000011"

  /** Nanoseconds in a day, and the largest Go time.Duration (about 292 years). */
  const NanosPerDay: int := 86_400_000_000_000
  const MaxDuration: int := 0x7fff_ffff_ffff_ffff

  /** The longest span, in days, a time.Duration can hold. */
  const MaxDurationDays: int := 106751

  datatype WorkdayRangeRequest = WorkdayRangeRequest(
    startDate: string, endDate: string, restDayPattern: string,
    excludeDates: seq<string>, addDates: seq<string>)

  datatype WorkdayRangeResponse = WorkdayRangeResponse(
    totalDays: int, workdays: int, restdays: int,
    workdayList: seq<string>, restdayList: seq<string>)

  /** The rules that decide a day: the weekly pattern, the dates forced to rest, the dates
      forced to work. */
  datatype RestRules = RestRules(pattern: string, exclude: set<string>, add: set<string>)

  /** A date's position in the weekly pattern: Monday is 0, …, Sunday is 6. */
  function PatternIndex(d: Date): (i: int)
    requires ValidDate(d)
    ensures 0 <= i < 7
    ensures (i + 1) % 7 == Weekday(d)
  {
    var w := Weekday(d);
    (if w == 0 then 7 else w) - 1
  }

  /** The pattern has a byte for the date's weekday (a shorter pattern makes the source index
      out of range). Go indexes a string by byte, so a non-ASCII character takes several places. */
  predicate Covered(d: Date, rules: RestRules)
    requires ValidDate(d)
    ensures PatternIndex(d) < |rules.pattern| ==> Covered(d, rules)
  {
    PatternIndex(d) < |Utf8Bytes(rules.pattern)|
  }

  /** A forced working day wins over a forced rest day, which wins over the weekly pattern. */
  predicate IsRestDay(d: Date, rules: RestRules)
    requires ValidDate(d) && Covered(d, rules)
    ensures IsRestDay(d, rules) ==> FormatDate(d) !in rules.add
    ensures FormatDate(d) in rules.exclude && FormatDate(d) !in rules.add ==> IsRestDay(d, rules)
  {
    var s := FormatDate(d);
    s !in rules.add && (s in rules.exclude || Utf8Bytes(rules.pattern)[PatternIndex(d)] == '1' as int)
  }

  /** Under the default pattern and no forced dates, the rest days are exactly the weekends. */
  lemma DefaultPatternRestsOnWeekends(d: Date)
    requires ValidDate(d)
    ensures Covered(d, RestRules(DefaultRestPattern, {}, {}))
    ensures IsRestDay(d, RestRules(DefaultRestPattern, {}, {})) <==> IsWeekend(d)
  {
    var i := PatternIndex(d);
    AsciiBytes(DefaultRestPattern);
    assert DefaultRestPattern[i] == '1' <==> i == 5 || i == 6;
  }

  /** For an ASCII pattern, the byte a weekday indexes is the pattern's character. */
  lemma AsciiPatternByCharacter(d: Date, rules: RestRules)
    requires ValidDate(d) && IsAscii(rules.pattern)
    ensures Covered(d, rules) <==> PatternIndex(d) < |rules.pattern|
    ensures Covered(d, rules) ==> (IsRestDay(d, rules) <==>
      FormatDate(d) !in rules.add && (FormatDate(d) in rules.exclude || rules.pattern[PatternIndex(d)] == '1'))
  {
    AsciiBytes(rules.pattern);
  }

  /** In "é111111" the 'é' takes the first two bytes, so a Tuesday reads the second byte of
      'é' rather than a '1' and is a working day, and the pattern covers Sunday too. */
  lemma NonAsciiPatternByByte(d: Date)
    requires ValidDate(d)
    ensures var rules := RestRules("é111111", {}, {});
      Covered(d, rules) && (PatternIndex(d) == 1 ==> !IsRestDay(d, rules))
  {
    var s := "é111111";
    assert s[0] as int == 0xE9;
    assert Utf8Bytes(s) == Utf8Encode(s[0]) + Utf8Bytes(s[1..]);
    assert Utf8Encode(s[0]) == [0xC3, 0xA9];
  }

  /** The rules a request stands for. */
  function RulesOf(req: WorkdayRangeRequest): (rules: RestRules)
    ensures req.restDayPattern == "" ==> rules.pattern == DefaultRestPattern
    ensures req.restDayPattern != "" ==> rules.pattern == req.restDayPattern
    ensures forall s :: s in rules.exclude <==> s in req.excludeDates
    ensures forall s :: s in rules.add <==> s in req.addDates
  {
    RestRules(
      if req.restDayPattern == "" then DefaultRestPattern else req.restDayPattern,
      SetOf(req.excludeDates), SetOf(req.addDates))
  }

  /** The dates a list names. */
  function SetOf(dates: seq<string>): set<string> {
    set s | s in dates
  }

  /** endDate.Sub(startDate) in nanoseconds for a span of `days` >= 0 days: saturated at the
      largest Duration. */
  function SubNanos(days: nat): (n: int)
    ensures 0 <= n <= MaxDuration
  {
    if days * NanosPerDay <= MaxDuration then days * NanosPerDay else MaxDuration
  }

  /** int(d.Hours() / 24) + 1: the number of days the loop visits. Spans the Duration can hold
      count every day up to the end date; longer spans stop after MaxDurationDays + 1 days. */
  function TotalDays(days: nat): (n: int)
    ensures days <= MaxDurationDays ==> n == days + 1
    ensures days > MaxDurationDays ==> n == MaxDurationDays + 1
  {
    SubNanos(days) / NanosPerDay + 1
  }

  /** The `n` consecutive dates from `start`. */
  function DateRange(start: Date, n: nat): (ds: seq<Date>)
    requires ValidDate(start)
    ensures |ds| == n
    decreases n
  {
    if n == 0 then [] else DateRange(start, n - 1) + [AddDays(start, n - 1)]
  }

  /** The i-th date of the range is i days after the start. */
  lemma {:induction false} DateRangeAt(start: Date, n: nat)
    requires ValidDate(start)
    ensures forall i :: 0 <= i < n ==> DateRange(start, n)[i] == AddDays(start, i)
    decreases n
  {
    if n > 0 {
      var j := n - 1;
      var prev := DateRange(start, j);
      DateRangeAt(start, j);
      var ds := DateRange(start, n);
      assert ds == prev + [AddDays(start, j)];
      forall i | 0 <= i < n ensures ds[i] == AddDays(start, i) {
        if i < j {
          assert ds[i] == prev[i] == AddDays(start, i);
        } else {
          assert i == j && ds[i] == ds[j] == AddDays(start, j);
        }
      }
    }
  }

  /** The pattern has a character for the weekday of every one of the dates. */
  predicate AllCovered(ds: seq<Date>, rules: RestRules)
    decreases |ds|
  {
    ds == [] ||
    (AllCovered(ds[..|ds| - 1], rules) && ValidDate(ds[|ds| - 1]) && Covered(ds[|ds| - 1], rules))
  }

  lemma {:induction false} AllCoveredAt(ds: seq<Date>, rules: RestRules)
    ensures AllCovered(ds, rules) <==> forall i :: 0 <= i < |ds| ==> ValidDate(ds[i]) && Covered(ds[i], rules)
    decreases |ds|
  {
    if ds != [] {
      var n := |ds| - 1;
      AllCoveredAt(ds[..n], rules);
      assert forall i :: 0 <= i < n ==> ds[..n][i] == ds[i];
    }
  }

  lemma AllCoveredSnoc(ds: seq<Date>, d: Date, rules: RestRules)
    ensures AllCovered(ds + [d], rules) <==> AllCovered(ds, rules) && ValidDate(d) && Covered(d, rules)
  {
    assert (ds + [d])[..|ds|] == ds;
  }

  /** Whether each of the days is a rest day. */
  function RestFlags(ds: seq<Date>, rules: RestRules): (flags: seq<bool>)
    requires AllCovered(ds, rules)
    ensures |flags| == |ds|
    decreases |ds|
  {
    if ds == [] then []
    else RestFlags(ds[..|ds| - 1], rules) + [IsRestDay(ds[|ds| - 1], rules)]
  }

  lemma {:induction false} RestFlagsAt(ds: seq<Date>, rules: RestRules)
    requires AllCovered(ds, rules)
    ensures forall i :: 0 <= i < |ds| ==>
      ValidDate(ds[i]) && Covered(ds[i], rules) && RestFlags(ds, rules)[i] == IsRestDay(ds[i], rules)
    decreases |ds|
  {
    if ds != [] {
      var n := |ds| - 1;
      var prev := ds[..n];
      RestFlagsAt(prev, rules);
      var flags := RestFlags(ds, rules);
      assert flags == RestFlags(prev, rules) + [IsRestDay(ds[n], rules)];
      forall i | 0 <= i < |ds|
        ensures ValidDate(ds[i]) && Covered(ds[i], rules) && flags[i] == IsRestDay(ds[i], rules)
      {
        if i < n {
          assert ds[i] == prev[i] && flags[i] == RestFlags(prev, rules)[i];
        } else {
          assert i == n && flags[i] == IsRestDay(ds[n], rules);
        }
      }
    }
  }

  lemma RestFlagsSnoc(ds: seq<Date>, d: Date, rules: RestRules)
    requires AllCovered(ds, rules) && ValidDate(d) && Covered(d, rules)
    ensures AllCovered(ds + [d], rules)
    ensures RestFlags(ds + [d], rules) == RestFlags(ds, rules) + [IsRestDay(d, rules)]
  {
    AllCoveredSnoc(ds, d, rules);
    assert (ds + [d])[..|ds|] == ds;
  }

  /** The elements of `xs` whose flag equals `keep`, in their order. */
  function Select<T>(xs: seq<T>, flags: seq<bool>, keep: bool): seq<T>
    requires |flags| == |xs|
    decreases |xs|
  {
    if xs == [] then []
    else
      var n := |xs| - 1;
      Select(xs[..n], flags[..n], keep) + (if flags[n] == keep then [xs[n]] else [])
  }

  /** The rest days among `ds`, in their order. */
  function RestDays(ds: seq<Date>, rules: RestRules): seq<Date>
    requires AllCovered(ds, rules)
  {
    Select(ds, RestFlags(ds, rules), true)
  }

  /** The working days among `ds`, in their order. */
  function WorkDays(ds: seq<Date>, rules: RestRules): seq<Date>
    requires AllCovered(ds, rules)
  {
    Select(ds, RestFlags(ds, rules), false)
  }

  /** Each date printed as YYYY-MM-DD. */
  function FormatAll(ds: seq<Date>): (ss: seq<string>)
    ensures |ss| == |ds|
    ensures forall i :: 0 <= i < |ds| ==> ss[i] == FormatDate(ds[i])
  {
    seq(|ds|, i requires 0 <= i < |ds| => FormatDate(ds[i]))
  }

  /** Every element lands in exactly one of the two selections. */
  lemma {:induction false} SelectPartition<T>(xs: seq<T>, flags: seq<bool>)
    requires |flags| == |xs|
    ensures multiset(Select(xs, flags, false)) + multiset(Select(xs, flags, true)) == multiset(xs)
    ensures |Select(xs, flags, false)| + |Select(xs, flags, true)| == |xs|
    decreases |xs|
  {
    if xs != [] {
      var n := |xs| - 1;
      var init, initFlags := xs[..n], flags[..n];
      SelectPartition(init, initFlags);
      var sf, st := Select(init, initFlags, false), Select(init, initFlags, true);
      var x := xs[n];
      assert xs == init + [x];
      assert Select(xs, flags, true) == st + (if flags[n] then [x] else []);
      assert Select(xs, flags, false) == sf + (if flags[n] then [] else [x]);
      PartitionSnoc(sf, st, init, x, flags[n]);
    }
  }

  lemma PartitionSnoc<T>(sf: seq<T>, st: seq<T>, init: seq<T>, x: T, f: bool)
    requires multiset(sf) + multiset(st) == multiset(init)
    requires |sf| + |st| == |init|
    ensures multiset(sf + (if f then [] else [x])) + multiset(st + (if f then [x] else [])) == multiset(init + [x])
    ensures |sf + (if f then [] else [x])| + |st + (if f then [x] else [])| == |init + [x]|
  {
    assert multiset(init + [x]) == multiset(init) + multiset{x};
    if f {
      assert multiset(st + [x]) == multiset(st) + multiset{x};
    } else {
      assert multiset(sf + [x]) == multiset(sf) + multiset{x};
    }
  }

  /** An element is selected exactly when it occurs with the flag `keep`. */
  lemma {:induction false} SelectMembership<T>(xs: seq<T>, flags: seq<bool>, keep: bool)
    requires |flags| == |xs|
    ensures forall x :: x in Select(xs, flags, keep) ==>
      exists i :: 0 <= i < |xs| && xs[i] == x && flags[i] == keep
    ensures forall i :: 0 <= i < |xs| && flags[i] == keep ==> xs[i] in Select(xs, flags, keep)
    decreases |xs|
  {
    if xs != [] {
      var n := |xs| - 1;
      var init, initFlags := xs[..n], flags[..n];
      SelectMembership(init, initFlags, keep);
      var before := Select(init, initFlags, keep);
      assert Select(xs, flags, keep) == before + (if flags[n] == keep then [xs[n]] else []);
      forall x | x in Select(xs, flags, keep)
        ensures exists i :: 0 <= i < |xs| && xs[i] == x && flags[i] == keep
      {
        if x in before {
          var i :| 0 <= i < |init| && init[i] == x && initFlags[i] == keep;
          assert xs[i] == x && flags[i] == keep;
        } else {
          assert xs[n] == x && flags[n] == keep;
        }
      }
      forall i | 0 <= i < |xs| && flags[i] == keep
        ensures xs[i] in Select(xs, flags, keep)
      {
        if i < n {
          assert init[i] == xs[i] && initFlags[i] == keep;
        }
      }
    }
  }

  /** Every day lands in exactly one of the two lists. */
  lemma Partition(ds: seq<Date>, rules: RestRules)
    requires AllCovered(ds, rules)
    ensures multiset(WorkDays(ds, rules)) + multiset(RestDays(ds, rules)) == multiset(ds)
    ensures |WorkDays(ds, rules)| + |RestDays(ds, rules)| == |ds|
  {
    SelectPartition(ds, RestFlags(ds, rules));
  }

  /** A date is in the rest list exactly when it is one of the days and a rest day, and in the
      work list exactly when it is one of the days and not a rest day. */
  lemma Membership(ds: seq<Date>, rules: RestRules)
    requires AllCovered(ds, rules)
    ensures forall d :: d in RestDays(ds, rules) ==> d in ds
    ensures forall d :: d in WorkDays(ds, rules) ==> d in ds
    ensures forall i :: 0 <= i < |ds| ==>
      ValidDate(ds[i]) && Covered(ds[i], rules) &&
      (ds[i] in RestDays(ds, rules) <==> IsRestDay(ds[i], rules)) &&
      (ds[i] in WorkDays(ds, rules) <==> !IsRestDay(ds[i], rules))
  {
    var flags := RestFlags(ds, rules);
    RestFlagsAt(ds, rules);
    SelectMembership(ds, flags, true);
    SelectMembership(ds, flags, false);
    forall i | 0 <= i < |ds|
      ensures ds[i] in RestDays(ds, rules) <==> IsRestDay(ds[i], rules)
      ensures ds[i] in WorkDays(ds, rules) <==> !IsRestDay(ds[i], rules)
    {
      if ds[i] in RestDays(ds, rules) {
        var j :| 0 <= j < |ds| && ds[j] == ds[i] && flags[j] == true;
      }
      if ds[i] in WorkDays(ds, rules) {
        var j :| 0 <= j < |ds| && ds[j] == ds[i] && flags[j] == false;
      }
    }
  }

  /** The dates are in strictly increasing order. */
  predicate Chronological(ds: seq<Date>) {
    (forall i :: 0 <= i < |ds| ==> ValidDate(ds[i])) &&
    forall i, j :: 0 <= i < j < |ds| ==> DayNumber(ds[i]) < DayNumber(ds[j])
  }

  /** Selecting from dates in calendar order keeps them in calendar order. */
  lemma {:induction false} SelectChronological(ds: seq<Date>, flags: seq<bool>, keep: bool)
    requires |flags| == |ds| && Chronological(ds)
    ensures Chronological(Select(ds, flags, keep))
    decreases |ds|
  {
    if ds != [] {
      var n := |ds| - 1;
      SelectChronological(ds[..n], flags[..n], keep);
      SelectMembership(ds[..n], flags[..n], keep);
      var before := Select(ds[..n], flags[..n], keep);
      assert Select(ds, flags, keep) == before + (if flags[n] == keep then [ds[n]] else []);
      if flags[n] == keep {
        forall k | 0 <= k < |before|
          ensures DayNumber(before[k]) < DayNumber(ds[n])
        {
          assert before[k] in before;
          var i :| 0 <= i < n && ds[..n][i] == before[k] && flags[..n][i] == keep;
        }
        ChronologicalSnoc(before, ds[n]);
      }
    }
  }

  lemma ChronologicalSnoc(ds: seq<Date>, d: Date)
    requires Chronological(ds) && ValidDate(d)
    requires forall k :: 0 <= k < |ds| ==> DayNumber(ds[k]) < DayNumber(d)
    ensures Chronological(ds + [d])
  {
    var e := ds + [d];
    forall i, j | 0 <= i < j < |e| ensures DayNumber(e[i]) < DayNumber(e[j]) {
      assert e[i] == ds[i];
    }
  }

  /** Both lists keep the days in calendar order. */
  lemma ListsChronological(ds: seq<Date>, rules: RestRules)
    requires AllCovered(ds, rules) && Chronological(ds)
    ensures Chronological(RestDays(ds, rules)) && Chronological(WorkDays(ds, rules))
  {
    SelectChronological(ds, RestFlags(ds, rules), true);
    SelectChronological(ds, RestFlags(ds, rules), false);
  }

  /** The range is in calendar order, one day apart. */
  lemma RangeChronological(start: Date, n: nat)
    requires ValidDate(start)
    ensures Chronological(DateRange(start, n))
    ensures forall i :: 0 <= i < n ==> DayNumber(DateRange(start, n)[i]) == DayNumber(start) + i
  {
    DateRangeAt(start, n);
  }

  /** A span the Duration can hold ends exactly on the end date; a longer one stops short of it. */
  lemma RangeReachesEnd(start: Date, end: Date)
    requires ValidDate(start) && ValidDate(end) && DayNumber(start) <= DayNumber(end)
    ensures var ds := DateRange(start, TotalDays(DayNumber(end) - DayNumber(start)));
      ds[0] == start &&
      (DayNumber(end) - DayNumber(start) <= MaxDurationDays ==> ds[|ds| - 1] == end) &&
      (DayNumber(end) - DayNumber(start) > MaxDurationDays ==> DayNumber(ds[|ds| - 1]) < DayNumber(end))
  {
    var n := TotalDays(DayNumber(end) - DayNumber(start));
    var ds := DateRange(start, n);
    DateRangeAt(start, n);
    var last := AddDays(start, n - 1);
    assert ds[0] == AddDays(start, 0) == start;
    assert ds[n - 1] == last;
    if DayNumber(end) - DayNumber(start) <= MaxDurationDays {
      DayNumberOrder(last, end);
    }
  }

  /** The response for a well-formed range: every visited day printed into its list. */
  function ResponseOf(ds: seq<Date>, rules: RestRules): (r: WorkdayRangeResponse)
    requires AllCovered(ds, rules)
    ensures r.totalDays == |ds| == r.workdays + r.restdays
    ensures r.workdays == |r.workdayList| && r.restdays == |r.restdayList|
  {
    Partition(ds, rules);
    var work, rest := WorkDays(ds, rules), RestDays(ds, rules);
    WorkdayRangeResponse(|ds|, |work|, |rest|, FormatAll(work), FormatAll(rest))
  }

  /** Days the request forces to work are in the work list even when it also forces them to
      rest; days it forces only to rest are in the rest list. */
  lemma ForcedDays(ds: seq<Date>, rules: RestRules, i: int)
    requires AllCovered(ds, rules) && 0 <= i < |ds|
    ensures FormatDate(ds[i]) in rules.add ==>
      ds[i] in WorkDays(ds, rules) && FormatDate(ds[i]) in FormatAll(WorkDays(ds, rules))
    ensures FormatDate(ds[i]) !in rules.add && FormatDate(ds[i]) in rules.exclude ==>
      ds[i] in RestDays(ds, rules) && FormatDate(ds[i]) in FormatAll(RestDays(ds, rules))
  {
    Membership(ds, rules);
    FormatAllMember(WorkDays(ds, rules), ds[i]);
    FormatAllMember(RestDays(ds, rules), ds[i]);
  }

  lemma FormatAllMember(ds: seq<Date>, d: Date)
    ensures d in ds ==> FormatDate(d) in FormatAll(ds)
  {
    if d in ds {
      var i :| 0 <= i < |ds| && ds[i] == d;
      assert FormatAll(ds)[i] == FormatDate(d);
    }
  }

  lemma FormatAllSnoc(ds: seq<Date>, d: Date)
    ensures FormatAll(ds + [d]) == FormatAll(ds) + [FormatDate(d)]
  {
  }

  /** The set a list of dates stands for (the source builds a map to true). */
  method DateSet(dates: seq<string>) returns (s: set<string>)
    ensures forall x :: x in s <==> x in dates
    ensures s == SetOf(dates)
  {
    s := {};
    for k := 0 to |dates|
      invariant forall x :: x in s <==> x in dates[..k]
    {
      s := s + {dates[k]};
    }
    assert dates[..|dates|] == dates;
    assert s == SetOf(dates);
  }

  /** What walking `totalDays` days from `start` yields: the response listing every day when the
      pattern covers all their weekdays, else an index-out-of-range panic. */
  function WalkResult(start: Date, totalDays: nat, rules: RestRules): (r: Result<WorkdayRangeResponse, Fault>)
    requires ValidDate(start)
  {
    var ds := DateRange(start, totalDays);
    if AllCovered(ds, rules) then Success(ResponseOf(ds, rules))
    else Failure(RuntimePanic("index out of range"))
  }

  /** The loop over the days: each visited day goes to the rest or the work list, and a day the
      pattern has no character for panics. */
  method WalkDays(start: Date, totalDays: nat, rules: RestRules) returns (r: Result<WorkdayRangeResponse, Fault>)
    requires ValidDate(start)
    ensures r == WalkResult(start, totalDays, rules)
  {
    ghost var days: seq<Date> := [];
    ghost var flags: seq<bool> := [];
    var workdayList: seq<string> := [];
    var restdayList: seq<string> := [];
    var current := start;
    for i := 0 to totalDays
      invariant ValidDate(current) && current == AddDays(start, i)
      invariant days == DateRange(start, i)
      invariant AllCovered(days, rules) && flags == RestFlags(days, rules)
      invariant workdayList == FormatAll(Select(days, flags, false))
      invariant restdayList == FormatAll(Select(days, flags, true))
    {
      var covered, isRestDay, dateStr := ClassifyDay(current, rules);
      if !covered {
        UncoveredDayPanics(start, totalDays, i, rules);
        return Failure(RuntimePanic("index out of range"));
      }
      RestFlagsSnoc(days, current, rules);
      SelectSnoc(days, flags, current, isRestDay);
      if isRestDay {
        FormatAllSnoc(Select(days, flags, true), current);
        restdayList := restdayList + [dateStr];
      } else {
        FormatAllSnoc(Select(days, flags, false), current);
        workdayList := workdayList + [dateStr];
      }
      days := days + [current];
      flags := flags + [isRestDay];
      AddDaysNext(start, i);
      current := NextDay(current);
    }
    Partition(days, rules);
    return Success(WorkdayRangeResponse(totalDays, |workdayList|, |restdayList|, workdayList, restdayList));
  }

  /** One step of the loop: the day's weekday index into the pattern (Monday 0 … Sunday 6),
      then the pattern's verdict, overridden by a forced rest day, overridden by a forced
      working day. `covered` is false where the source indexes past the pattern's end. */
  method ClassifyDay(current: Date, rules: RestRules) returns (covered: bool, isRestDay: bool, dateStr: string)
    requires ValidDate(current)
    ensures dateStr == FormatDate(current)
    ensures covered == Covered(current, rules)
    ensures covered ==> isRestDay == IsRestDay(current, rules)
  {
    dateStr := FormatDate(current);
    var weekday := Weekday(current);
    if weekday == 0 {
      weekday := 7;
    }
    weekday := weekday - 1;
    var bytes := Utf8Bytes(rules.pattern);
    covered := weekday < |bytes|;
    isRestDay := false;
    if !covered {
      return;
    }
    if bytes[weekday] == '1' as int {
      isRestDay := true;
    }
    if dateStr in rules.exclude {
      isRestDay := true;
    }
    if dateStr in rules.add {
      isRestDay := false;
    }
  }

  /** One day further than i days from the start is the day after. */
  lemma AddDaysNext(start: Date, i: nat)
    requires ValidDate(start)
    ensures AddDays(start, i + 1) == NextDay(AddDays(start, i))
  {
    DayNumberOrder(AddDays(start, i + 1), NextDay(AddDays(start, i)));
  }

  /** A visited day the pattern does not cover means the whole range is not covered. */
  lemma UncoveredDayPanics(start: Date, n: nat, i: nat, rules: RestRules)
    requires ValidDate(start) && i < n && !Covered(AddDays(start, i), rules)
    ensures !AllCovered(DateRange(start, n), rules)
  {
    DateRangeAt(start, n);
    AllCoveredAt(DateRange(start, n), rules);
  }

  /** Adding one element with its flag adds it to exactly one of the selections. */
  lemma SelectSnoc<T>(xs: seq<T>, flags: seq<bool>, x: T, f: bool)
    requires |flags| == |xs|
    ensures Select(xs + [x], flags + [f], f) == Select(xs, flags, f) + [x]
    ensures Select(xs + [x], flags + [f], !f) == Select(xs, flags, !f)
  {
    assert (xs + [x])[..|xs|] == xs && (flags + [f])[..|xs|] == flags;
  }

  /** The dates a valid request spans: the start, the end, and the days from one to the other. */
  datatype Span = Span(start: Date, end: Date, days: nat)

  /** The checks before the loop: both dates parse, and the end is not before the start. */
  function ValidateRange(startDate: string, endDate: string): (r: Result<Span, Fault>)
    ensures ParseDate(startDate).None? ==> r == Failure(WrappedError(9000, "开始日期格式错误: "))
    ensures ParseDate(startDate).Some? && ParseDate(endDate).None? ==>
      r == Failure(WrappedError(9000, "结束日期格式错误: "))
    ensures ParseDate(startDate).Some? && ParseDate(endDate).Some? ==>
      var start, end := ParseDate(startDate).value, ParseDate(endDate).value;
      (DayNumber(end) < DayNumber(start) ==> r == Failure(ApiError(9000, "结束日期不能早于开始日期"))) &&
      (DayNumber(start) <= DayNumber(end) ==> r == Success(Span(start, end, DayNumber(end) - DayNumber(start))))
    ensures r.Success? ==> ValidDate(r.value.start) && ValidDate(r.value.end)
  {
    match ParseDate(startDate)
    case None => Failure(WrappedError(9000, "开始日期格式错误: "))
    case Some(start) =>
      match ParseDate(endDate)
      case None => Failure(WrappedError(9000, "结束日期格式错误: "))
      case Some(end) => SpanOf(start, end)
  }

  /** The order check: an end before the start is refused, otherwise the span between them. */
  function SpanOf(start: Date, end: Date): (r: Result<Span, Fault>)
    requires ValidDate(start) && ValidDate(end)
    ensures DayNumber(end) < DayNumber(start) ==> r == Failure(ApiError(9000, "结束日期不能早于开始日期"))
    ensures DayNumber(start) <= DayNumber(end) ==> r == Success(Span(start, end, DayNumber(end) - DayNumber(start)))
  {
    if DayNumber(end) < DayNumber(start) then Failure(ApiError(9000, "结束日期不能早于开始日期"))
    else Success(Span(start, end, DayNumber(end) - DayNumber(start)))
  }

  /** CalculateWorkdays: the dates are validated, and the loop then walks TotalDays days from the
      start, panicking at the first day the pattern is too short for. */
  method CalculateWorkdays(req: WorkdayRangeRequest) returns (r: Result<WorkdayRangeResponse, Fault>)
    ensures ValidateRange(req.startDate, req.endDate).Failure? ==>
      r == Failure(ValidateRange(req.startDate, req.endDate).error)
    ensures ValidateRange(req.startDate, req.endDate).Success? ==>
      var span := ValidateRange(req.startDate, req.endDate).value;
      r == WalkResult(span.start, TotalDays(span.days), RulesOf(req))
  {
    var pattern := req.restDayPattern;
    if pattern == "" {
      pattern := DefaultRestPattern;
    }
    var range := ValidateRange(req.startDate, req.endDate);
    if range.Failure? {
      return Failure(range.error);
    }
    var span := range.value;
    var exclude := DateSet(req.excludeDates);
    var add := DateSet(req.addDates);
    var rules := RestRules(pattern, exclude, add);
    assert rules == RulesOf(req);
    var totalDays := TotalDays(span.days);
    r := WalkDays(span.start, totalDays, rules);
  }
}
