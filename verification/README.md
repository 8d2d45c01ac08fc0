# toolbox-api core, modelled in Dafny

This project models the computational core of the toolbox-api HTTP service, a Go program. The
following parts are modelled:

- The time service:
  - time-zone resolution and its Chinese descriptions;
  - the preset output formats and the Python-style (`%Y`, `%j`, `%U`, …) custom format renderer;
  - reading numeric and textual timestamps in `ConvertTime`;
  - the weekend check;
  - week numbers within a month or a year, with the total number of weeks;
  - the work-day calendar of `CalculateWorkdays`.
- The date helpers: `YYYY-MM-DD` validation and parsing, weekday and ISO-week arithmetic.
- The four case converters (camel, Pascal, snake and kebab case).
- The string service: split, indexed split, plain replace, and writing a date in Chinese numerals.
- The random-integer service: range checks, and drawing with or without duplicates.

Dates are `Calendar.Date(year, month, day)` values in the proleptic Gregorian calendar, numbered
from 0001-01-01 (a Monday). The weekday, the day of the year and Go's `Time.ISOWeek` are defined
on this day number. Strings are sequences of Unicode code points. Go's `len`, which counts UTF-8
bytes, is `Text.Utf8Length`, and indexing a string, which reads a byte, reads `Text.Utf8Bytes`.

Anything the service obtains from the outside world becomes a parameter of the model:
- the current date;
- the zone database, as a map from zone names to UTC offsets;
- the offset a zone has at an instant;
- Go's `time.Parse` for a layout;
- Go's `Time.Format` for a layout;
- the regular-expression engine;
- `rand.Intn`, which becomes an arbitrary choice of an index in range.

Modules:

| module | file | models |
|---|---|---|
| `Outcome` | outcome.dfy | `Option`, `Result` and the `Fault` kinds |
| `Decimal` | decimal.dfy | decimal digits, `strconv.Itoa`, zero padding, 64-bit wrap-around, truncating division |
| `Text` | text.dfy | `strings.ReplaceAll`, `Split`, `Join`, `Cut`, `Contains`, UTF-8 length and bytes |
| `Calendar` | calendar.dfy | the date arithmetic, ISO weeks, `IsValidDateFormat`, `ParseDate` |
| `Weeks` | weeks.dfy | `IsWeekend`, `GetWeekNumberInMonth/InYear`, `CheckIsWeekend`, `GetWeekNumber` |
| `Timezone` | timezone.dfy | `getTimezoneInfo` |
| `Format` | format.dfy | `formatWithPythonFormat`, `formatTime` |
| `Convert` | convert.dfy | `ParseDateTime`, `time.Unix`, `ConvertTime`, `GetTimezoneInfo` |
| `Workdays` | workdays.dfy | `CalculateWorkdays` |
| `CaseStyle` | case_style.dfy | `ToCamelCase`, `ToPascalCase`, `ToSnakeCase`, `ToKebabCase` |
| `StringService` | string_service.dfy | `SplitString`, `SplitIndexedString`, `ReplaceString`, `ConvertDateToChinese(Simple)` |
| `RandomService` | random_service.dfy | `GenerateRandomIntegers` |

Where the Go code loops or mutates, the model is a method with a loop and invariants, proved
against a specification function. This covers:
- the year-numeral builder;
- the case converters' rune loops;
- `ParseDateTime`'s layout loop;
- the work-day walk;
- the replace pipeline of `formatWithPythonFormat`;
- the Fisher-Yates pool on an `array`.

Pure computations are functions, and the lemmas relate them.

## Model

| member | source | states |
|---|---|---|
| Calendar.DaysInMonth | service/time_service.go:456-458 | a month has 28 to 31 days, and 29 exactly for February of a leap year |
| Calendar.IsoWeekday | service/time_service.go:693-697 | Monday..Sunday are 1..7, and the value agrees with the Sunday-0 weekday modulo 7 |
| Calendar.NextDay | service/time_service.go:724 | the next calendar day is a valid date whose day number is one more |
| Calendar.PrevNext | service/time_service.go:490 | stepping one day back undoes stepping one day forward, and the reverse |
| Calendar.AddDays | service/time_service.go:724 | moving k days lands on the valid date whose day number is k more |
| Calendar.DayNumberOrder | service/time_service.go:665 | one date is before another exactly when its day number is smaller, and equal day numbers mean equal dates |
| Calendar.IsoThursdayIsThursday | service/time_service.go:485 | the Thursday of a date's Monday-to-Sunday week is a Thursday, and the date is its ISO weekday minus 4 days from it |
| Calendar.IsoWeekIsStandard | service/time_service.go:485 | the ISO week lies between week 1's Monday of its ISO year and the next, and spans the days 7(w-1)..7w-1 after it |
| Calendar.IsoWeekSameWeek | service/time_service.go:485 | two consecutive days Monday..Sunday share their ISO week |
| Calendar.Jan4InWeekOne | service/time_service.go:485 | January 4 always lies in ISO week 1 of its own year |
| Calendar.IsoWeeksInYear | service/time_service.go:484-496 | the number of ISO weeks of a year is the week of December 28, and it is 52 or 53 |
| Calendar.IsoWeekAtMost | service/time_service.go:484-496 | no date has a larger ISO week than its ISO year's number of weeks |
| Calendar.FormatDate | service/time_service.go:406 | a valid date with a four-digit year renders as a string of the shape YYYY-MM-DD |
| Calendar.ParseDate | utils/helper.go:122-124 | a parse succeeds only on a YYYY-MM-DD string naming a valid date, which prints back as the same string; a well-formed string fails only for an invalid date |
| Calendar.DateFormatByPosition | utils/helper.go:115-119 | the date pattern holds exactly for ten characters with - at positions 4 and 7 and an ASCII digit everywhere else |
| Calendar.FormatParseRoundTrip | utils/helper.go:122-124 | parsing the printed form of a date gives back that date |
| Weeks.IsWeekend | utils/helper.go:109-112 | a date is a weekend (Saturday or Sunday) exactly when its ISO weekday is 6 or 7, the last two days of a Monday-first week |
| Weeks.WeekStartOnOrBefore | utils/helper.go:155-166 | the week start on or before a day is less than 7 days earlier and falls on the chosen first weekday |
| Weeks.FirstWeekOffset | utils/helper.go:155-166 | the offset of a month's first day is 0..6 days after the start of its week |
| Weeks.WeekNumberInMonth | utils/helper.go:150-171 | the week number within the month is 1..6, is 1 on the 1st, and counts whole weeks from the week holding the 1st |
| Weeks.WeekNumberInMonthStep | utils/helper.go:150-171 | from one day to the next the week number in the month rises by one exactly when the new day starts a week, and otherwise stays |
| Weeks.WeekNumberInMonthMonotone | utils/helper.go:150-171 | within a month the week number never decreases |
| Weeks.MonthTotalWeeks | service/time_service.go:453-478 | the month's total weeks is 4..6 and equals the week number of its last day |
| Weeks.MonthTotalWeeksIsMax | service/time_service.go:453-478 | no day of a month has a week number above the month's total |
| Weeks.WeekNumberInYear | utils/helper.go:174-194 | Monday-first weeks of a date in its own ISO year are its ISO week; otherwise whole weeks from the week holding January 1; always 1..54 |
| Weeks.EarlyJanuaryFallback | utils/helper.go:179-194 | a Monday-first early-January date that belongs to last year's ISO week gets week 1 |
| Weeks.SundayYearTotalWeeks | service/time_service.go:498-513 | the Sunday-first total weeks of a year is 53 or 54 and is the week number of December 31 |
| Weeks.SundayYearTotalWeeksIsMax | service/time_service.go:498-513 | no Sunday-first week number in a year exceeds its total |
| Weeks.IsoTotalWeeksAsWritten | service/time_service.go:484-496 | the ISO total as written (the week of December 31, or of December 30 when that is week 1) is 1 when December 31 is a Tuesday or a Wednesday, and the true number of ISO weeks otherwise |
| Weeks.IsoTotalWeeksAsWrittenIn2024 | service/time_service.go:484-496 | for 2024 the ISO total as written is 1 while the year has 52 ISO weeks |
| Weeks.ResolveDate | service/time_service.go:386-399 | an empty date means today; a malformed one is error code 3001 or 3002 with the format message; a parse failure is a wrapped parse error; a success is the parsed date |
| Weeks.CheckIsWeekend | service/time_service.go:382-411 | fails exactly when the date is rejected; on success the date field is the resolved date (today when none is given) in YYYY-MM-DD, it is a weekend exactly when the weekday is 0 or 6, and gives the weekday and its name |
| Weeks.TotalWeeks | service/time_service.go:453-515 | the in-month total is the month's total (the week of its last day, 4..6), which bounds the date's week; the Sunday-first year total is the year's (the week of December 31, 53..54), which bounds the date's week; the Monday-first year total is the as-written December 31 / December 30 rule, so it is 1 when December 31 is a Tuesday or a Wednesday and the year's ISO week count otherwise |
| Weeks.IsoTotalWeeksBound | service/time_service.go:480-496 | where the as-written Monday-first total is right, it bounds the ISO week of every date in its own ISO year |
| Weeks.TotalWeeksIn2024 | service/time_service.go:484-496 | every 2024 date reports a Monday-first year total of 1, although 2024 has 52 ISO weeks |
| Weeks.GetWeekNumber | service/time_service.go:414-526 | fails exactly when the date is rejected (code 3002); on success gives the resolved date (today when none is given) in YYYY-MM-DD, the in-month or in-year week number, weekday, its name, the start-day label and the total as written |
| Timezone.AliasesHaveDescriptions | service/time_service.go:13-32 | every alias names a zone that has a Chinese description |
| Timezone.ResolveAlias | service/time_service.go:47-49 | a known alias is replaced by its zone name, and any other name is kept |
| Timezone.ResolveZone | service/time_service.go:40-66 | an explicit hour offset wins, as 3600 times the hours in 64 bits; else a name is resolved and looked up, failing on an unknown zone; else Asia/Shanghai is used |
| Timezone.SplitOffset | service/time_service.go:69-70 | hours and minutes truncate toward zero, carry the offset's sign, and rebuild it together with the leftover seconds |
| Timezone.OffsetLabel | service/time_service.go:74-82 | the label ends in 区 and starts with 东 for east of UTC, 西 for west, and is 0区 at UTC; between them stand the decimal digits, without a leading zero, of the number of whole hours |
| Timezone.OffsetLabelInjective | service/time_service.go:74-82 | different hour offsets get different labels |
| Timezone.Description | service/time_service.go:73-82 | a described zone gets its description, and any other zone gets its offset label |
| Timezone.GetTimezoneInfo | service/time_service.go:35-91 | fails exactly when zone resolution fails; on success gives the name and offset, the hours and minutes of Go's truncating split (which rebuild the offset), and the zone's table description, else the label of those hours |
| Timezone.ExplicitOffsetWins | service/time_service.go:41-44 | with an explicit hour offset the result always succeeds, keeps the given name, and reports those hours with no minutes |
| Timezone.AvailableOffsetsRange | service/time_service.go:550 | the offered offsets are the 27 whole hours from -12 to +14 |
| Format.Hour12 | service/time_service.go:250-255 | the 12-hour clock value is 1..12 and agrees with the hour modulo 12 |
| Format.WeekNumberClosure | service/time_service.go:176-183 | a day of the year gets week 0..53, and week 0 exactly when it comes before the first day that falls on the chosen first weekday |
| Format.WeekNumberClosureCountsWeekStarts | service/time_service.go:176-183 | the week-number closure counts the days 1..doy of the year that fall on the chosen first weekday |
| Format.WeekOfYearField | service/time_service.go:227-232 | the %U/%W field is two digits whose value is the number of week starts so far this year |
| Format.YearField | service/time_service.go:213-216 | %Y is the four-digit year and %y the year modulo 100 in two digits |
| Format.DateDirective | service/time_service.go:213-247 | each date directive gives its documented field: the four- or two-digit year, the padded month, day, day of year, ISO week, week counts, weekday digits and names; none holds a % |
| Format.ClockDirective | service/time_service.go:248-268 | each clock directive gives its padded field: the 24- and 12-hour hour, AM/PM by the hour, minute, second, and microseconds |
| Format.DirectiveValue | service/time_service.go:212-281 | a date directive gives its date field and a clock directive its clock field, neither holding a %; %% gives %, and the library directives give the library's rendering of their layout |
| Format.FormatWithPythonFormat | service/time_service.go:154-288 | the method's loop of contains-then-replace steps in the fixed directive order computes the as-written rendering |
| Format.ReplacePipeline | service/time_service.go:200-285 | replacing each directive in turn, everywhere, leaves a format without a % unchanged; its effect on directives is stated by PipelineAgreesWithScan and DoublePercentCounterexample |
| Format.PythonFormatAsWritten | service/time_service.go:154-288 | formatWithPythonFormat as written: the layout conversion exactly when the format is no %c/%x/%X shortcut and has no special directive; otherwise, on a format without %% whose library renderings hold no %, the text is the left-to-right directive scan |
| Format.ChainIsScan | service/time_service.go:204-285 | on a format without %%, replacing the first k directives one after another equals one left-to-right scan with the first k directives' values |
| Format.PipelineAgreesWithScan | service/time_service.go:204-285 | on a format without %%, the replace pipeline equals a left-to-right directive scan |
| Format.ScanDirectiveToken | service/time_service.go:212-281 | the scan renders a directive at the front by its value and then continues with the rest |
| Format.DoublePercentCounterexample | service/time_service.go:204-285 | on "%%j" the pipeline yields % followed by the day of year, while the directive scan yields the literal "%j" |
| Format.PythonFormat | service/time_service.go:154-198 | the corrected reading of formatWithPythonFormat, its special path a directive scan: %c/%x/%X and formats without a special directive go to layout conversion, and on a format without %% the result is the as-written one |
| Format.FormatTime | service/time_service.go:291-318 | date_only, time_only, datetime, iso/rfc3339 and human give their layouts and the two timestamps their decimal texts; "custom" with a format is formatWithPythonFormat as written, which on a format without %% is the directive scan; anything else gives the datetime layout |
| Format.DatetimeText | service/time_service.go:555 | the "2006-01-02 15:04:05" layout gives 19 characters: a date that parses back to the moment's date, a space, and the clock |
| Format.ClockText | service/time_service.go:555 | the clock is two-digit hour, minute and second that read back to the moment's, separated by ':' |
| Format.TimestampMillis | service/time_service.go:307-308 | the millisecond timestamp is seconds times 1000 plus whole milliseconds, and dividing it by 1000 gives the seconds back |
| Convert.Unix | service/time_service.go:580-597 | Go's time.Unix normalises to nanoseconds 0..10^9-1 while keeping the total instant |
| Convert.FromTimestamp | service/time_service.go:575-598 | values up to 9999999999 are seconds; larger values are milliseconds, wrapped to 64 bits when multiplied to nanoseconds |
| Convert.MillisecondTimestamp | service/time_service.go:587-588 | a millisecond value becomes floor(v/1000) seconds and the remainder in nanoseconds |
| Convert.FirstParse | utils/helper.go:137-146 | succeeds exactly when some layout parses, with the result of the first that does; otherwise the last layout's error |
| Convert.ParseDateTime | utils/helper.go:127-147 | the loop over the five layouts returns the first successful parse or the last error |
| Convert.FirstParseAt | utils/helper.go:138-146 | a parse that succeeds with some layout is the one returned when no earlier layout succeeds |
| Convert.ReadInput | service/time_service.go:567-601 | text is parsed (error 9000 on failure), an integer is a timestamp echoed as its decimal text, and any other input is error 9000 |
| Convert.LocalMoment | service/time_service.go:626 | the local date and clock are the instant shifted by the zone offset, split into days and seconds of the day |
| Convert.ConversionOffset | service/time_service.go:619-626 | an explicit hour offset gives a 64-bit offset of 3600 seconds per hour, exact whenever that fits in 64 bits; otherwise the zone's offset at the instant |
| Convert.ConvertTime | service/time_service.go:561-645 | input errors are returned first, then zone errors as error 9000; on success it echoes the original text and the zone's name and info, and the converted text is FormatTime (custom formats included) of the instant on the zone's wall clock, an empty output format read as "default" |
| Convert.SecondsRoundTrip | service/time_service.go:583-590 | converting a seconds timestamp to the "timestamp" format gives back its own digits |
| Convert.MillisecondsRoundTrip | service/time_service.go:580-588 | converting a millisecond timestamp to "timestamp_ms" gives back its own digits |
| Convert.GetTimezoneInfoService | service/time_service.go:529-558 | succeeds exactly when the zone info does and reports a failure as error 9000; echoes the info with the offered offsets, and the current time is `now` on the zone's wall clock in the "2006-01-02 15:04:05" layout |
| Workdays.PatternIndex | service/time_service.go:693-697 | the pattern index is 0..6 with Monday 0 and Sunday 6 |
| Workdays.Covered | service/time_service.go:700 | the pattern reaches a weekday's index whenever it has that many characters (a byte count is never below the character count) |
| Workdays.IsRestDay | service/time_service.go:698-712 | an added date is never a rest day, and an excluded date that is not added always is |
| Workdays.DefaultPatternRestsOnWeekends | service/time_service.go:650-652 | with the default pattern and no overrides, a day is a rest day exactly when it is a weekend |
| Workdays.RulesOf | service/time_service.go:650-679 | an empty pattern becomes the default, and the exclude and add sets hold exactly the listed dates |
| Workdays.TotalDays | service/time_service.go:682 | the day count is the difference plus one, capped where Go's Duration saturates |
| Workdays.DateRangeAt | service/time_service.go:688-724 | the i-th day visited is the start plus i days |
| Workdays.Partition | service/time_service.go:717-721 | the work and rest lists together are exactly the visited days, as a multiset |
| Workdays.Membership | service/time_service.go:700-721 | a day is listed as a rest day exactly when its rule makes it one, and otherwise as a work day |
| Workdays.ListsChronological | service/time_service.go:688-724 | both lists are in strictly increasing date order |
| Workdays.RangeReachesEnd | service/time_service.go:682-724 | the walk starts at the start date; within the Duration range its last day is the end date, and beyond it the walk stops short of the end |
| Workdays.ResponseOf | service/time_service.go:727-733 | total days equals work days plus rest days, and each count is its list's length |
| Workdays.ForcedDays | service/time_service.go:706-714 | an added date is always a work day, and an excluded date not also added is a rest day |
| Workdays.DateSet | service/time_service.go:670-679 | the set built by the loop holds exactly the listed dates |
| Workdays.WalkDays | service/time_service.go:685-725 | the walk loop produces the response of classifying each visited day, or the index panic on a short pattern |
| Workdays.ClassifyDay | service/time_service.go:690-714 | one step formats the date and, when the pattern's UTF-8 bytes reach its weekday index, makes it a rest day when that byte is '1' or the date is excluded, unless the date is added |
| Workdays.AsciiPatternByCharacter | service/time_service.go:701 | for an ASCII pattern the byte a weekday indexes is the pattern's character |
| Workdays.NonAsciiPatternByByte | service/time_service.go:701 | in the pattern "é111111" a Tuesday reads the second byte of 'é' and is a working day, and Sunday is covered |
| Workdays.UncoveredDayPanics | service/time_service.go:701 | a pattern too short for a visited weekday makes the walk fail |
| Workdays.ValidateRange | service/time_service.go:655-667 | a bad start date, a bad end date, and an end before the start give their own 9000 errors, in that order |
| Workdays.CalculateWorkdays | service/time_service.go:648-734 | range errors are returned as they are; otherwise the result is the walk over the range with the request's rules |
| CaseStyle.Fields | utils/helper.go:31 | the fields are non-empty and space-free, and there are none exactly when the text is all white space |
| CaseStyle.FieldsConcat | utils/helper.go:31 | the fields joined together are the text with its white space removed |
| CaseStyle.Title | utils/helper.go:44 | title-casing keeps the length, upper-cases the first character and otherwise changes a character only to its upper case |
| CaseStyle.TitleRule | utils/helper.go:44 | title-casing upper-cases the first character and every character after a separator (anything but an ASCII letter, digit or '_', or a Unicode space), and leaves every other character as it is |
| CaseStyle.TitleKeepsLetters | utils/helper.go:44 | title-casing changes only letter case |
| CaseStyle.InsertSeparators | utils/helper.go:75-83 | the rune loop lower-cases the text and puts a separator before each inner upper-case letter not already after one |
| CaseStyle.SplitCamel | utils/helper.go:75-83 | the rewriting leaves no upper-case letter (the separator being none), and leaves a text without upper-case letters unchanged |
| CaseStyle.ToSeparatedCase | utils/helper.go:69-86 | white-space runs become a single separator and then camel humps are separated, the body ToSnakeCase and ToKebabCase share |
| CaseStyle.ToSnakeCase | utils/helper.go:69-86 | snake case joins the fields with _ and then separates camel humps |
| CaseStyle.ToKebabCase | utils/helper.go:89-106 | kebab case joins the fields with - and then separates camel humps |
| CaseStyle.Separated | utils/helper.go:69-106 | the result has no upper-case letters and no spaces, and without its separators it is the input's letters, lower-cased |
| CaseStyle.SeparatedIdempotent | utils/helper.go:69-106 | converting a snake- or kebab-case result again changes nothing |
| CaseStyle.ToCamelCase | utils/helper.go:29-48 | camel case lower-cases the text, splits it into fields, keeps the first and title-cases the rest |
| CaseStyle.CamelOf | utils/helper.go:36-47 | the camel join differs from the plain concatenation of the words only in letter case, and begins with the first word unchanged |
| CaseStyle.ToPascalCase | utils/helper.go:51-66 | Pascal case title-cases every field of the lower-cased text and joins them |
| CaseStyle.CamelCaseShape | utils/helper.go:29-48 | the camel-case result is empty exactly for an all-space input, has the input's non-space letters up to case, and starts with the first of them lower-cased |
| CaseStyle.PascalCaseShape | utils/helper.go:51-66 | the Pascal-case result is empty exactly for an all-space input, has the input's non-space letters up to case, and starts with the first of them upper-cased |
| StringService.SplitString | service/string_service.go:13-37 | the count is the number of parts; in map form each part holding the key delimiter gives a key and value, later parts winning; otherwise the parts |
| StringService.PairsOfKeys | service/string_service.go:23-31 | the map's keys are exactly the text before the key delimiter in parts that contain it |
| StringService.PairsOfLastWins | service/string_service.go:25-29 | a key's value is that of the last part that has the key |
| StringService.SplitCount | service/string_service.go:15-19 | a non-empty delimiter gives one more part than its occurrences, and the parts joined with it give the input back; an empty delimiter splits into single runes |
| StringService.SplitIndexedString | service/string_service.go:40-54 | the map takes each decimal index to its part, and the count is the number of parts |
| StringService.ReplaceString | service/string_service.go:57-76 | the plain branch replaces every occurrence and never fails; the regex branch fails exactly when the pattern does not compile; the length is the result's UTF-8 byte count |
| StringService.PlainReplacement | service/string_service.go:68-69 | the replacement changes the length by the occurrence count times the length difference, and replacing a target by itself changes nothing |
| StringService.EmptyTargetLength | service/string_service.go:68-69 | an empty target inserts the replacement around every rune |
| StringService.YearNumerals | service/string_service.go:168-173 | the year loop writes one numeral per decimal digit of the year |
| StringService.NumeralsRoundTrip | service/string_service.go:168-173 | reading the numerals back gives the year's digits |
| StringService.MonthUpper | service/string_service.go:176-195 | months 1-2 and 10 take a leading 零; 3-9 are one numeral; 11-12 are 壹拾 and the units numeral |
| StringService.DayUpper | service/string_service.go:199-224 | days 1-9 and multiples of ten take a leading 零; other days are tens numeral, 拾 and units numeral |
| StringService.MonthSimple | service/string_service.go:259-269 | months below ten are one numeral, and from ten on they are 十 followed by the units numeral if any |
| StringService.DaySimple | service/string_service.go:272-289 | days below ten are one numeral, teens are 十 and the units, and later days are tens, 十 and the units if not zero |
| StringService.MonthUpperRoundTrip | service/string_service.go:176-195 | every month 1..12 can be read back from its formal form |
| StringService.DayUpperRoundTrip | service/string_service.go:199-224 | every day 1..31 can be read back from its formal form |
| StringService.MonthSimpleRoundTrip | service/string_service.go:259-269 | every month 1..12 can be read back from its common form |
| StringService.DaySimpleRoundTrip | service/string_service.go:272-289 | every day 1..31 can be read back from its common form |
| StringService.ConvertDateToChinese | service/string_service.go:150-231 | a malformed date gives error 4001, an invalid one the parse error, and otherwise the formal year, month and day with 年, 月 and 日 |
| StringService.ConvertDateToChineseSimple | service/string_service.go:234-296 | the same checks, and otherwise the common numerals for year, month and day |
| StringService.UpperDateRoundTrip | service/string_service.go:150-231 | the formal Chinese date can be read back to the date that was parsed |
| StringService.SimpleDateRoundTrip | service/string_service.go:234-296 | the common Chinese date can be read back to the date that was parsed |
| RandomService.RangeSizeWraps | service/random_service.go:25-28 | for the widest 64-bit range the computed range size wraps to 0, so a single distinct number is refused |
| RandomService.Validate | service/random_service.go:16-28 | the request is accepted exactly when min <= max, count >= 1 and, without duplicates, count fits the range; each refusal has its own message |
| RandomService.ValidateAsWritten | service/random_service.go:16-28 | the checks as written, with the range size in 64 bits: min > max and count < 1 are refused with their messages; a request it accepts has min <= max, count >= 1 and, without duplicates, a count that fits the range; without duplicates, every range of 2^63 or more values is refused |
| RandomService.ValidateAgrees | service/random_service.go:25-28 | wherever the range size fits in 64 bits the exact checks are the checks as written |
| RandomService.RangeSizeWrap | service/random_service.go:25 | the 64-bit size of a non-empty range is either exact or wraps to 0 or below |
| RandomService.NewPool | service/random_service.go:36-39 | the pool holds min, min+1, …, max in order |
| RandomService.Swap | service/random_service.go:46 | the exchange swaps the two places and leaves the rest |
| RandomService.SwapPermutes | service/random_service.go:46 | an exchange keeps the pool a permutation |
| RandomService.DrawDistinct | service/random_service.go:42-47 | the selection loop keeps the pool a permutation, leaves the numbers drawn at its tail, last drawn first, and returns count distinct numbers in range |
| RandomService.DrawAny | service/random_service.go:50-52 | with the range size n as computed in 64 bits, the loop panics exactly when n <= 0 and a draw is made, and otherwise returns count numbers in [min, min + n - 1] |
| RandomService.GenerateRandomIntegers | service/random_service.go:15-61 | refuses exactly what the 64-bit checks as written refuse, with their messages, which wherever the range size fits in 64 bits are the exact checks; with duplicates allowed, a range of 2^63 or more integers panics in rand.Intn; on success exactly count numbers in [min, max], distinct when duplicates are not allowed, echoing count, min and max |
| Text.SplitJoinRoundTrip | service/string_service.go:15 | the parts joined with the delimiter give the input back, and there is one part more than delimiter occurrences |
| Text.ReplaceAllLength | service/string_service.go:69 | replacement changes the length by the count of occurrences times the length difference |
| Text.Utf8Encode | service/time_service.go:701 | a character's UTF-8 bytes: as many as `len` counts for it, each below 256; an ASCII character is its own single byte, and every byte of any other character is 0x80 or above |
| Text.AsciiBytes | service/time_service.go:701 | the bytes of an ASCII string are its characters, one each |
| Text.CutAtFirst | service/string_service.go:26-27 | cutting fails exactly when the separator is absent, and otherwise cuts at its first occurrence |
| Decimal.ValueOfDigits | service/string_service.go:168 | reading the decimal digits of n gives n |
| Decimal.ItoaInjective | service/time_service.go:586 | different integers have different decimal texts |
| Decimal.WrapInt64 | service/time_service.go:580 | the wrap-around is in the 64-bit range, congruent to its input modulo 2^64, and the identity on that range |
| Decimal.TruncRem | service/time_service.go:69-70 | Go's remainder rebuilds the dividend with truncating division and has the dividend's sign |
| Decimal.PaddedValueOf | service/time_service.go:223-226 | zero-padding a value to a digit string's width gives that string back |

## Left out

- Floating point: `ConvertTime`'s `float64` input branch is modelled as an integer timestamp. The JSON layer delivers numbers as `float64`, and truncating those to integers is not modelled.
- Go layout strings are not rendered. `Time.Format`, and `convertPythonFormatToGo` with the library-rendered `%z %Z %c %x %X`, are a `layout` parameter. `Format.PythonFormat` returns a `ConvertedLayout` marker where the source converts the format to a Go layout, and it does not model that conversion.
- `time.Parse` for the five `ParseDateTime` layouts is a parameter. Only `YYYY-MM-DD` (`ParseDate`) is modelled in full.
- The zone database, the current time (`now`) and the offset of a named zone at an instant are parameters. The offset `getTimezoneInfo` reports for a named zone is the database's, the one it has at the current time. The "加载时区失败" branch cannot occur once a zone has resolved, so it is not modelled.
- Format.PythonFormat, the corrected reference for the `%%` finding: its agreement with the as-written pipeline is stated only when the library renderings of `%z %Z %c %x %X` hold no `%` (the `LibraryRendersNoPercent` premise).
- Map iteration order does not matter anywhere in the core. Go's nil-versus-empty slices and maps are not distinguished.
- CaseStyle.Fields and the case converters: upper- and lower-case mapping covers ASCII letters only. Go's Unicode case tables and `strings.Title`'s Unicode word boundaries are left out.
- Invalid UTF-8 input is not modelled, because strings are sequences of code points.
- StringService.ReplaceString: the regular-expression branch is a parameter (`regexReplace`), because the regexp engine is not modelled.
- `ExtractInitials` and the other string-service operations outside split, replace and Chinese dates are not part of this model. The same goes for the controllers, router, middleware (authentication, rate limiter, query-case conversion), configuration and `cmd/main.go`.
- Library error texts after "…失败: " are not modelled. A wrapped error carries only its code and prefix.
- RandomService.DrawDistinct: allocating a pool for a huge range, which may exhaust memory, is not modelled. `rand.Intn` is an arbitrary index in range, so no distribution is claimed.
- Workdays.TotalDays: Go's `Duration` saturation is modelled. The conversion through `float64` hours is exact for every range below that cap.
- Workdays.WalkDays: a rest-day pattern shorter than the weekday index makes Go panic. The model represents this as a `RuntimePanic` failure.

## Findings

The operations compute each of these as written: `FormatTime` and `ConvertTime` render custom
formats with the replace pipeline, `GetWeekNumber` reports the December 31 / December 30 total,
and `GenerateRandomIntegers` checks the range size in 64 bits. Each corrected member is a
reference definition beside them, with the intended property proved about it.

| source | as written | input that shows it | evidently intended | confidence | as-written member | corrected member |
|---|---|---|---|---|---|---|
| service/time_service.go:204-285 | each directive, `%%` last, is replaced everywhere in turn, so the `j` after an escaped `%` is first taken for `%j` | custom format "%%j" renders "%" followed by the day of year (e.g. "%032") | "%%" is a literal percent sign, so "%%j" renders "%j" | not executed | Format.DoublePercentCounterexample | Format.PipelineAgreesWithScan |
| service/time_service.go:484-496 | when December 31 is in week 1 of the next ISO year, December 30 is used instead, and that day is also in week 1 when December 31 is a Tuesday or a Wednesday | GetWeekNumber("2024-06-01", false, true) reports totalWeeks 1 | the number of ISO weeks of the year (52 for 2024), the week of December 28 | not executed | Weeks.IsoTotalWeeksAsWrittenIn2024 | Calendar.IsoWeeksInYear |
| service/random_service.go:25-28 | `max - min + 1` is computed in 64-bit `int` and wraps | min = -2^63, max = 2^63-1, count = 1, allowDuplicates = false is refused with "不允许重复时，生成数量不能大于可能值范围" | the range holds 2^64 values, so one distinct number fits | not executed | RandomService.RangeSizeWraps | RandomService.Validate |
