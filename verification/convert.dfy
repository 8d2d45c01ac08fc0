/** The time-conversion service: reading the input (a date-time string tried against five
    layouts, or a Unix timestamp in seconds or milliseconds), resolving the target zone, and
    rendering the instant there in the requested output format.
    Parsing a string against a Go layout is the standard library's and is an input: `parse` maps
    a layout and a string to the instant it denotes or the library's error text. The zone
    database is an input too: `zones` maps each loadable zone to its offset now (for the
    descriptor) and `offsetAt` gives a zone's offset at a given Unix second (for the
    conversion). `layout` is the library's rendering of the converted instant in a Go layout. */
module Convert {
  import opened Outcome
  import opened Decimal
  import opened Calendar
  import opened Timezone
  import opened Format

  /** An instant as time.Unix leaves it: whole seconds and the nanoseconds into that second. */
  datatype Instant = Instant(sec: int, nsec: int)

  predicate ValidInstant(t: Instant) {
    InInt64(t.sec) && 0 <= t.nsec < 1000000000
  }

  type UnixTime = t: Instant | ValidInstant(t) witness Instant(0, 0)

  /** time.Unix(sec, nsec): a nanosecond count outside [0, 10^9) is carried into the seconds with
      Go's truncating division, then corrected by one second when the remainder is negative. The
      instant keeps the total sec * 10^9 + nsec. */
  function Unix(sec: int, nsec: int): (t: Instant)
    ensures 0 <= t.nsec < 1000000000
    ensures t.sec * 1000000000 + t.nsec == sec * 1000000000 + nsec
  {
    if 0 <= nsec < 1000000000 then Instant(sec, nsec)
    else
      var n := TruncDiv(nsec, 1000000000);
      var s, ns := sec + n, nsec - n * 1000000000;
      if ns < 0 then Instant(s - 1, ns + 1000000000) else Instant(s, ns)
  }

  /** The carry is floor division: the seconds are sec + ⌊nsec / 10^9⌋. */
  lemma UnixIsFloorDivision(sec: int, nsec: int)
    ensures Unix(sec, nsec) == Instant(sec + nsec / 1000000000, nsec % 1000000000)
  {
    var t := Unix(sec, nsec);
    var q, r := nsec / 1000000000, nsec % 1000000000;
    assert (t.sec - sec - q) * 1000000000 == r - t.nsec;
  }

  /** Timestamps above this are read as milliseconds. */
  const MillisThreshold: int := 9999999999

  /** The instant of a Go int/int64 timestamp: milliseconds above the threshold (times 10^6 in
      64-bit arithmetic), seconds otherwise. */
  function FromTimestamp(v: int): (t: UnixTime)
    requires InInt64(v)
    ensures v <= MillisThreshold ==> t == Instant(v, 0)
    ensures v > MillisThreshold ==> t.sec * 1000000000 + t.nsec == WrapInt64(v * 1000000)
  {
    if v > MillisThreshold then
      var t := Unix(0, WrapInt64(v * 1000000));
      UnixIsFloorDivision(0, WrapInt64(v * 1000000));
      t
    else Instant(v, 0)
  }

  /** Up to about the year 2262, where v * 10^6 still fits in 64 bits, a millisecond timestamp is
      exactly v milliseconds after the epoch. */
  lemma MillisecondTimestamp(v: int)
    requires MillisThreshold < v && InInt64(v) && InInt64(v * 1000000)
    ensures FromTimestamp(v).sec == v / 1000 && FromTimestamp(v).nsec == (v % 1000) * 1000000
  {
    var t := FromTimestamp(v);
    assert t.sec * 1000000000 + t.nsec == v * 1000000;
    assert v * 1000000 == (v / 1000) * 1000000000 + (v % 1000) * 1000000;
    assert (t.sec - v / 1000) * 1000000000 == (v % 1000) * 1000000 - t.nsec;
  }

  /** The layouts ParseDateTime tries, in order (the third is time.RFC3339). */
  const DateTimeLayouts: seq<string> := [
    "2006-01-02 15:04:05",
    "2006/01/02 15:04:05",
    "2006-01-02T15:04:05Z07:00",
    "02-01-2006 15:04:05",
    "02/01/2006 15:04:05"]

  /** The first layout that parses wins; when none does, the last one's error is reported. */
  function FirstParse(s: string, layouts: seq<string>, parse: (string, string) -> Result<UnixTime, string>): (r: Result<UnixTime, string>)
    requires layouts != []
    ensures r.Success? <==> exists i :: 0 <= i < |layouts| && parse(layouts[i], s).Success?
    ensures r.Success? ==> exists i :: 0 <= i < |layouts| && r == parse(layouts[i], s) &&
                                      forall j :: 0 <= j < i ==> parse(layouts[j], s).Failure?
    ensures r.Failure? ==> r == parse(layouts[|layouts| - 1], s)
    decreases |layouts|
  {
    var first := parse(layouts[0], s);
    if first.Success? || |layouts| == 1 then first
    else
      var rest := FirstParse(s, layouts[1..], parse);
      assert forall i :: 1 <= i < |layouts| ==> layouts[1..][i - 1] == layouts[i];
      if rest.Success? then
        var k :| 0 <= k < |layouts| - 1 && rest == parse(layouts[1..][k], s) &&
          forall j :: 0 <= j < k ==> parse(layouts[1..][j], s).Failure?;
        assert forall j :: 0 <= j < k + 1 ==> parse(layouts[j], s).Failure? by {
          forall j | 0 <= j < k + 1 ensures parse(layouts[j], s).Failure? {
            if j > 0 { assert layouts[j] == layouts[1..][j - 1]; }
          }
        }
        assert rest == parse(layouts[k + 1], s);
        rest
      else
        rest
  }

  /** ParseDateTime: tries the layouts in order, keeping the last error. */
  method ParseDateTime(s: string, parse: (string, string) -> Result<UnixTime, string>) returns (r: Result<UnixTime, string>)
    ensures r == FirstParse(s, DateTimeLayouts, parse)
  {
    var layouts := DateTimeLayouts;
    var parseErr := "";
    for i := 0 to |layouts|
      invariant forall j :: 0 <= j < i ==> parse(layouts[j], s).Failure?
      invariant 0 < i ==> parseErr == parse(layouts[i - 1], s).error
    {
      var t := parse(layouts[i], s);
      if t.Success? {
        FirstParseAt(s, layouts, parse, i);
        return t;
      }
      parseErr := t.error;
    }
    FirstParseAt(s, layouts, parse, |layouts| - 1);
    return Failure(parseErr);
  }

  /** When the layouts before i all fail, the first success is found from i on. */
  lemma FirstParseAt(s: string, layouts: seq<string>, parse: (string, string) -> Result<UnixTime, string>, i: int)
    requires 0 <= i < |layouts|
    requires forall j :: 0 <= j < i ==> parse(layouts[j], s).Failure?
    ensures parse(layouts[i], s).Success? ==> FirstParse(s, layouts, parse) == parse(layouts[i], s)
    ensures i == |layouts| - 1 ==> FirstParse(s, layouts, parse) == parse(layouts[i], s)
  {
    var r := FirstParse(s, layouts, parse);
    if r.Success? {
      var k :| 0 <= k < |layouts| && r == parse(layouts[k], s) &&
        forall j :: 0 <= j < k ==> parse(layouts[j], s).Failure?;
      if k < i {
        assert false;
      } else if k > i {
        assert parse(layouts[i], s).Failure?;
      }
    }
  }

  /** The time input of a request: a string, a Go int or int64 (the same on 64-bit platforms),
      or a value of any other type. */
  datatype TimeInput = TextInput(text: string) | IntegerInput(value: int) | OtherInput

  /** The instant and the echoed original text of an input. */
  function ReadInput(input: TimeInput, parse: (string, string) -> Result<UnixTime, string>): (r: Result<(UnixTime, string), Fault>)
    requires input.IntegerInput? ==> InInt64(input.value)
    ensures input.OtherInput? ==> r == Failure(ApiError(9000, "不支持的时间输入格式"))
    ensures input.TextInput? ==>
      (r.Success? <==> FirstParse(input.text, DateTimeLayouts, parse).Success?) &&
      (r.Success? ==> r.value == (FirstParse(input.text, DateTimeLayouts, parse).value, input.text)) &&
      (r.Failure? ==> r.error == WrappedError(9000, "时间格式解析失败: "))
    ensures input.IntegerInput? ==> r == Success((FromTimestamp(input.value), Itoa(input.value)))
  {
    match input
    case TextInput(s) =>
      (match FirstParse(s, DateTimeLayouts, parse)
       case Failure(_) => Failure(WrappedError(9000, "时间格式解析失败: "))
       case Success(t) => Success((t, s)))
    case IntegerInput(v) => Success((FromTimestamp(v), Itoa(v)))
    case OtherInput => Failure(ApiError(9000, "不支持的时间输入格式"))
  }

  /** 1970-01-01, the Unix epoch, is day 719163 counted from 0001-01-01. */
  const Epoch: Date := Date(1970, 1, 1)

  lemma EpochDayNumber()
    ensures ValidDate(Epoch) && DayNumber(Epoch) == 719163
  {
  }

  /** The wall clock of an instant in a zone `offset` seconds east of UTC. Days and seconds of
      the day are taken with floor division, as Go does for instants before 1970 too. */
  function LocalMoment(t: UnixTime, offset: int): (m: Moment)
    ensures ValidMoment(m) && m.unixSeconds == t.sec && m.nanosecond == t.nsec
    ensures (DayNumber(m.date) - DayNumber(Epoch)) * 86400 + m.hour * 3600 + m.minute * 60 + m.second
      == t.sec + offset
  {
    var local := t.sec + offset;
    var days, secs := local / 86400, local % 86400;
    EpochDayNumber();
    Moment(AddDays(Epoch, days), secs / 3600, secs % 3600 / 60, secs % 60, t.nsec, t.sec)
  }

  datatype TimeConvertRequest = TimeConvertRequest(
    timeInput: TimeInput, outputFormat: string, customFormat: string,
    timezone: string, tzOffset: Option<int>)

  datatype TimeConvertResponse = TimeConvertResponse(
    original: string, converted: Rendering, timezone: string, timezoneInfo: TimezoneInfo)

  /** The offset the conversion and the current time use: the fixed zone of an explicit hour offset, else the offset
      of the descriptor's zone at the instant. */
  function ConversionOffset(info: TimezoneInfo, tzOffset: Option<int>, offsetAt: (string, int) -> int, t: UnixTime): (r: int)
    requires tzOffset.Some? ==> InInt64(tzOffset.value)
    ensures tzOffset.Some? ==> InInt64(r) && (InInt64(tzOffset.value * 3600) ==> r == tzOffset.value * 3600)
    ensures tzOffset.None? ==> r == offsetAt(info.name, t.sec)
  {
    if tzOffset.Some? then WrapInt64(tzOffset.value * 3600) else offsetAt(info.name, t.sec)
  }

  /** ConvertTime. An empty output format means "default" (which renders like "datetime"); a
      custom format goes to the Python-style formatter as written, which is what FormatTime's
      custom case renders too; the zone descriptor's failure is wrapped
      with code 9000 (a failing default zone panics instead). Reloading the descriptor's zone
      cannot fail: the descriptor only names zones that loaded. */
  function ConvertTime(
    req: TimeConvertRequest,
    parse: (string, string) -> Result<UnixTime, string>,
    zones: map<string, int>,
    offsetAt: (string, int) -> int,
    layout: string -> string): (r: Result<TimeConvertResponse, Fault>)
    requires req.timeInput.IntegerInput? ==> InInt64(req.timeInput.value)
    requires req.tzOffset.Some? ==> InInt64(req.tzOffset.value)
    ensures ReadInput(req.timeInput, parse).Failure? ==> r == Failure(ReadInput(req.timeInput, parse).error)
    ensures ReadInput(req.timeInput, parse).Success? ==>
      var info := GetTimezoneInfo(req.timezone, req.tzOffset, zones);
      (info.Failure? && info.error.RuntimePanic? ==> r == Failure(info.error)) &&
      (info.Failure? && !info.error.RuntimePanic? ==> r == Failure(WrappedError(9000, "获取时区信息失败: "))) &&
      (info.Success? ==>
         r.Success? &&
         r.value.original == ReadInput(req.timeInput, parse).value.1 &&
         r.value.timezone == info.value.name && r.value.timezoneInfo == info.value &&
         var t := ReadInput(req.timeInput, parse).value.0;
         r.value.converted == FormatTime(LocalMoment(t, ConversionOffset(info.value, req.tzOffset, offsetAt, t)),
           if req.outputFormat == "" then "default" else req.outputFormat, req.customFormat, layout))
  {
    match ReadInput(req.timeInput, parse)
    case Failure(e) => Failure(e)
    case Success((t, original)) =>
      var outputFormat := if req.outputFormat == "" then "default" else req.outputFormat;
      match GetTimezoneInfo(req.timezone, req.tzOffset, zones)
      case Failure(e) =>
        if e.RuntimePanic? then Failure(e) else Failure(WrappedError(9000, "获取时区信息失败: "))
      case Success(info) =>
        var m := LocalMoment(t, ConversionOffset(info, req.tzOffset, offsetAt, t));
        var converted :=
          if outputFormat == "custom" && req.customFormat != "" then PythonFormatAsWritten(m, req.customFormat, layout)
          else FormatTime(m, outputFormat, req.customFormat, layout);
        Success(TimeConvertResponse(original, converted, info.name, info))
  }

  /** A seconds timestamp converted to "timestamp" gives back the same number, in any zone that
      loads. */
  lemma SecondsRoundTrip(v: int, timezone: string, tzOffset: Option<int>,
      parse: (string, string) -> Result<UnixTime, string>, zones: map<string, int>,
      offsetAt: (string, int) -> int, layout: string -> string)
    requires InInt64(v) && v <= MillisThreshold && (tzOffset.Some? ==> InInt64(tzOffset.value))
    requires GetTimezoneInfo(timezone, tzOffset, zones).Success?
    ensures var r := ConvertTime(TimeConvertRequest(IntegerInput(v), "timestamp", "", timezone, tzOffset), parse, zones, offsetAt, layout);
      r.Success? && r.value.converted == Text(Itoa(v)) && r.value.original == Itoa(v)
  {
  }

  /** A millisecond timestamp converted to "timestamp_ms" gives back the same number, in any zone
      that loads, up to the year 2262. */
  lemma MillisecondsRoundTrip(v: int, timezone: string, tzOffset: Option<int>,
      parse: (string, string) -> Result<UnixTime, string>, zones: map<string, int>,
      offsetAt: (string, int) -> int, layout: string -> string)
    requires MillisThreshold < v && InInt64(v) && InInt64(v * 1000000) && (tzOffset.Some? ==> InInt64(tzOffset.value))
    requires GetTimezoneInfo(timezone, tzOffset, zones).Success?
    ensures var r := ConvertTime(TimeConvertRequest(IntegerInput(v), "timestamp_ms", "", timezone, tzOffset), parse, zones, offsetAt, layout);
      r.Success? && r.value.converted == Text(Itoa(v)) && r.value.original == Itoa(v)
  {
    var t := FromTimestamp(v);
    var info := GetTimezoneInfo(timezone, tzOffset, zones).value;
    MillisecondsFormat(v, LocalMoment(t, ConversionOffset(info, tzOffset, offsetAt, t)), layout);
  }

  /** Any wall clock of a millisecond timestamp's instant renders as "timestamp_ms" to the
      timestamp's digits. */
  lemma MillisecondsFormat(v: int, m: Moment, layout: string -> string)
    requires MillisThreshold < v && InInt64(v) && InInt64(v * 1000000) && ValidMoment(m)
    requires m.unixSeconds == FromTimestamp(v).sec && m.nanosecond == FromTimestamp(v).nsec
    ensures FormatTime(m, "timestamp_ms", "", layout) == Text(Itoa(v))
  {
    MillisecondTimestamp(v);
    assert UnixNano(m) == v * 1000000;
    assert TruncDiv(v * 1000000, 1000000) == v;
  }

  datatype TimezoneInfoResponse = TimezoneInfoResponse(
    timezone: string, info: TimezoneInfo, currentTime: string, availableOffsets: seq<int>)

  /** The GetTimezoneInfo service: the descriptor with its zone name, the current time `now` on
      the zone's wall clock in the "2006-01-02 15:04:05" layout, and the available offsets, or
      code 9000 wrapping a zone that does not load. (With `zones` as the zone database, reloading
      the zone the descriptor names cannot fail, so the second load's error branch is unreachable.) */
  function GetTimezoneInfoService(timezone: string, tzOffset: Option<int>, zones: map<string, int>,
      offsetAt: (string, int) -> int, now: UnixTime): (r: Result<TimezoneInfoResponse, Fault>)
    requires tzOffset.Some? ==> InInt64(tzOffset.value)
    ensures r.Success? <==> GetTimezoneInfo(timezone, tzOffset, zones).Success?
    ensures r.Success? ==>
      r.value.info == GetTimezoneInfo(timezone, tzOffset, zones).value &&
      r.value.timezone == r.value.info.name && r.value.availableOffsets == AvailableOffsets &&
      r.value.currentTime == DatetimeText(LocalMoment(now, ConversionOffset(r.value.info, tzOffset, offsetAt, now)))
    ensures r.Failure? && tzOffset.None? && timezone != "" ==> r.error == WrappedError(9000, "获取时区信息失败: ")
    ensures r.Failure? && tzOffset.None? && timezone == "" ==> r.error.RuntimePanic?
  {
    match GetTimezoneInfo(timezone, tzOffset, zones)
    case Failure(e) =>
      if e.RuntimePanic? then Failure(e) else Failure(WrappedError(9000, "获取时区信息失败: "))
    case Success(info) =>
      var current := LocalMoment(now, ConversionOffset(info, tzOffset, offsetAt, now));
      Success(TimezoneInfoResponse(info.name, info, DatetimeText(current), AvailableOffsets))
  }
}
