/** The string service: splitting a string into a list or into key-value pairs, splitting into an
    index-keyed map, plain (non-regex) replacement, and rendering a YYYY-MM-DD date in Chinese
    numerals, either the financial capitals (壹贰叁…) or the common ones (一二三…). */
module StringService {
  import opened Outcome
  import opened Decimal
  import opened Text
  import opened Calendar

  datatype SplitRequest = SplitRequest(input: string, delimiter: string, mapFormat: bool, keyValueDelimiter: string)

  /** The `Result` field of a split response: the parts themselves, or a string map. */
  datatype SplitResult = PartList(parts: seq<string>) | PairMap(pairs: map<string, string>)

  datatype SplitResponse = SplitResponse(result: SplitResult, count: nat)

  /** The key-value pairs of `parts`: each part holding `kvd` is cut at its first occurrence into
      key and value, later parts overwriting earlier ones with the same key. */
  function PairsOf(parts: seq<string>, kvd: string): map<string, string>
    requires kvd != []
    decreases |parts|
  {
    if parts == [] then map[]
    else
      var earlier := PairsOf(parts[..|parts| - 1], kvd);
      match Cut(parts[|parts| - 1], kvd)
      case None => earlier
      case Some((k, v)) => earlier[k := v]
  }

  /** SplitString: the parts and their number; with map format and a key-value delimiter, the
      pairs instead of the parts. */
  method SplitString(req: SplitRequest) returns (r: SplitResponse)
    ensures r.count == |Split(req.input, req.delimiter)|
    ensures req.mapFormat && req.keyValueDelimiter != "" ==>
      r.result == PairMap(PairsOf(Split(req.input, req.delimiter), req.keyValueDelimiter))
    ensures !(req.mapFormat && req.keyValueDelimiter != "") ==>
      r.result == PartList(Split(req.input, req.delimiter))
  {
    var parts := Split(req.input, req.delimiter);
    if req.mapFormat && req.keyValueDelimiter != "" {
      var result: map<string, string> := map[];
      for i := 0 to |parts|
        invariant result == PairsOf(parts[..i], req.keyValueDelimiter)
      {
        assert parts[..i + 1][..i] == parts[..i];
        var kv := Cut(parts[i], req.keyValueDelimiter);
        if kv.Some? {
          result := result[kv.value.0 := kv.value.1];
        }
      }
      assert parts[..|parts|] == parts;
      r := SplitResponse(PairMap(result), |parts|);
    } else {
      r := SplitResponse(PartList(parts), |parts|);
    }
  }

  /** The keys of the pairs are exactly the keys of the parts that hold the delimiter. */
  lemma {:induction false} PairsOfKeys(parts: seq<string>, kvd: string)
    requires kvd != []
    ensures forall k :: k in PairsOf(parts, kvd) ==>
      exists i :: 0 <= i < |parts| && Cut(parts[i], kvd).Some? && Cut(parts[i], kvd).value.0 == k
    ensures forall i :: 0 <= i < |parts| && Cut(parts[i], kvd).Some? ==> Cut(parts[i], kvd).value.0 in PairsOf(parts, kvd)
    decreases |parts|
  {
    if parts != [] {
      var init := parts[..|parts| - 1];
      PairsOfKeys(init, kvd);
      assert forall i :: 0 <= i < |init| ==> init[i] == parts[i];
    }
  }

  /** A later part overwrites an earlier one: a key takes the value of the LAST part that has it. */
  lemma {:induction false} PairsOfLastWins(parts: seq<string>, kvd: string, i: int, k: string, v: string)
    requires kvd != [] && 0 <= i < |parts| && Cut(parts[i], kvd) == Some((k, v))
    requires forall j :: i < j < |parts| ==> Cut(parts[j], kvd).None? || Cut(parts[j], kvd).value.0 != k
    ensures k in PairsOf(parts, kvd) && PairsOf(parts, kvd)[k] == v
    decreases |parts|
  {
    if i < |parts| - 1 {
      var init := parts[..|parts| - 1];
      assert forall j :: 0 <= j < |init| ==> init[j] == parts[j];
      PairsOfLastWins(init, kvd, i, k, v);
    }
  }

  /** The count and the parts of a split: with a non-empty delimiter there is one part more than
      there are occurrences, and joining the parts with the delimiter gives the input back; with
      an empty one each character is a part. */
  lemma SplitCount(input: string, delimiter: string)
    ensures delimiter != [] ==>
      |Split(input, delimiter)| == CountOccurrences(input, delimiter) + 1 &&
      Join(Split(input, delimiter), delimiter) == input
    ensures delimiter == [] ==>
      |Split(input, delimiter)| == |input| &&
      forall i :: 0 <= i < |input| ==> Split(input, delimiter)[i] == [input[i]]
  {
    if delimiter != [] {
      SplitJoinRoundTrip(input, delimiter);
    }
  }

  datatype SplitIndexedRequest = SplitIndexedRequest(content: string, delimiter: string)

  /** SplitIndexedString: part i under the key strconv.Itoa(i), and the number of parts. */
  method SplitIndexedString(req: SplitIndexedRequest) returns (r: SplitResponse)
    ensures var parts := Split(req.content, req.delimiter);
      r.count == |parts| && r.result.PairMap? &&
      (forall i :: 0 <= i < |parts| ==> Itoa(i) in r.result.pairs && r.result.pairs[Itoa(i)] == parts[i]) &&
      (forall k :: k in r.result.pairs ==> exists i :: 0 <= i < |parts| && k == Itoa(i))
  {
    var parts := Split(req.content, req.delimiter);
    var result: map<string, string> := map[];
    for i := 0 to |parts|
      invariant forall j :: 0 <= j < i ==> Itoa(j) in result && result[Itoa(j)] == parts[j]
      invariant forall k :: k in result ==> exists j :: 0 <= j < i && k == Itoa(j)
    {
      forall j | 0 <= j < i
        ensures Itoa(j) != Itoa(i)
      {
        ItoaInjective(j, i);
      }
      result := result[Itoa(i) := parts[i]];
    }
    r := SplitResponse(PairMap(result), |parts|);
  }

  datatype ReplaceRequest = ReplaceRequest(input: string, target: string, replacement: string, useRegex: bool)

  /** `length` is Go's len of the result: its size in UTF-8 bytes. */
  datatype ReplaceResponse = ReplaceResponse(result: string, length: nat)

  /** ReplaceString. The regular-expression engine is an input: `regexReplace(pattern, input,
      replacement)` is the result of ReplaceAllString, or None when the pattern does not compile. */
  function ReplaceString(req: ReplaceRequest, regexReplace: (string, string, string) -> Option<string>): (r: Result<ReplaceResponse, Fault>)
    ensures r.Success? ==> r.value.length == Utf8Length(r.value.result)
    ensures !req.useRegex ==> r.Success? && r.value.result == ReplaceAll(req.input, req.target, req.replacement)
    ensures req.useRegex ==>
      (r.Failure? <==> regexReplace(req.target, req.input, req.replacement).None?) &&
      (r.Failure? ==> r.error == LibraryError("regexp.Compile")) &&
      (r.Success? ==> r.value.result == regexReplace(req.target, req.input, req.replacement).value)
  {
    if req.useRegex then
      match regexReplace(req.target, req.input, req.replacement)
      case None => Failure(LibraryError("regexp.Compile"))
      case Some(result) => Success(ReplaceResponse(result, Utf8Length(result)))
    else
      var result := ReplaceAll(req.input, req.target, req.replacement);
      Success(ReplaceResponse(result, Utf8Length(result)))
  }

  /** Splitting with the target, then joining with the replacement, is replacing. */
  lemma {:induction false} JoinSplitFromReplaces(s: string, pat: string, rep: string, cur: string)
    requires pat != []
    ensures Join(SplitFrom(s, pat, cur), rep) == cur + ReplaceAll(s, pat, rep)
    decreases |s|
  {
    if |s| < |pat| {
    } else if s[..|pat|] == pat {
      var rest := SplitFrom(s[|pat|..], pat, "");
      JoinSplitFromReplaces(s[|pat|..], pat, rep, "");
      assert ([cur] + rest)[1..] == rest;
    } else {
      JoinSplitFromReplaces(s[1..], pat, rep, cur + [s[0]]);
    }
  }

  /** What a plain replacement does: every non-overlapping occurrence of the target, scanning
      from the left, is replaced (the result is the pieces between occurrences joined with the
      replacement), so the length changes by |replacement| - |target| per occurrence; an empty
      target inserts the replacement before every character and at the end; a target that does
      not occur, or a replacement equal to the target, leaves the input unchanged. */
  lemma PlainReplacement(input: string, target: string, replacement: string, regexReplace: (string, string, string) -> Option<string>)
    ensures var r := ReplaceString(ReplaceRequest(input, target, replacement, false), regexReplace).value.result;
      (target != [] ==>
        r == Join(Split(input, target), replacement) &&
        |r| == |input| + CountOccurrences(input, target) * (|replacement| - |target|) &&
        (!Contains(input, target) ==> r == input)) &&
      (target == [] ==> |r| == |input| + (|input| + 1) * |replacement|) &&
      (replacement == target ==> r == input)
  {
    if target != [] {
      JoinSplitFromReplaces(input, target, replacement, "");
      ReplaceAllLength(input, target, replacement);
      if !Contains(input, target) {
        ReplaceAbsent(input, target, replacement);
      }
    } else {
      EmptyTargetLength(input, replacement);
    }
    ReplaceBySelf(input, target);
  }

  lemma {:induction false} EmptyTargetLength(s: string, rep: string)
    ensures |ReplaceAll(s, [], rep)| == |s| + (|s| + 1) * |rep|
    decreases |s|
  {
    if s != [] {
      EmptyTargetLength(s[1..], rep);
    }
  }

  // Chinese date rendering.

  /** ChineseNumbersUpper and ChineseNumbersSimple: the numeral of each digit 0-9, one character each. */
  const UpperNumerals: string := "零壹贰叁肆伍陆柒捌玖"
  const SimpleNumerals: string := "零一二三四五六七八九"

  /** Ten distinct characters, none of them 年, 月, 日 or a ten-sign. */
  predicate NumeralTable(numerals: string) {
    |numerals| == 10 &&
    (forall i, j :: 0 <= i < j < 10 ==> numerals[i] != numerals[j]) &&
    '年' !in numerals && '月' !in numerals && '日' !in numerals && '拾' !in numerals && '十' !in numerals
  }

  lemma UpperTable()
    ensures NumeralTable(UpperNumerals)
  {
  }

  lemma SimpleTable()
    ensures NumeralTable(SimpleNumerals)
  {
  }

  /** The numeral of digit d, read back, is d. */
  lemma UpperDigit(d: nat)
    requires d < 10
    ensures NumeralValue(UpperNumerals[d], UpperNumerals) == Some(d)
  {
    UpperTable();
    NumeralValueOf(UpperNumerals, d);
  }

  lemma SimpleDigit(d: nat)
    requires d < 10
    ensures NumeralValue(SimpleNumerals[d], SimpleNumerals) == Some(d)
  {
    SimpleTable();
    NumeralValueOf(SimpleNumerals, d);
  }

  /** Each digit of `digits` written as its numeral. */
  function NumeralsOf(digits: string, numerals: string): (s: string)
    requires AllDigits(digits) && |numerals| == 10
    ensures |s| == |digits|
  {
    seq(|digits|, i requires 0 <= i < |digits| && AllDigits(digits) => numerals[DigitValue(digits[i])])
  }

  /** The year loop: each character of strconv.Itoa(year) written as its numeral. */
  method YearNumerals(year: nat, numerals: string) returns (s: string)
    requires |numerals| == 10
    ensures s == NumeralsOf(Digits(year), numerals)
  {
    var yearStr := Itoa(year);
    s := "";
    for i := 0 to |yearStr|
      invariant s == NumeralsOf(yearStr[..i], numerals)
    {
      var digit := DigitValue(yearStr[i]);
      s := s + [numerals[digit]];
    }
    assert yearStr[..|yearStr|] == yearStr;
  }

  /** The digit a numeral stands for. */
  function NumeralValue(c: char, numerals: string): (r: Option<nat>)
    ensures r.Some? ==> r.value < |numerals| && numerals[r.value] == c
    ensures r.None? ==> c !in numerals
    decreases |numerals|
  {
    if numerals == [] then None
    else if numerals[|numerals| - 1] == c then Some(|numerals| - 1)
    else NumeralValue(c, numerals[..|numerals| - 1])
  }

  lemma NumeralValueOf(numerals: string, d: nat)
    requires NumeralTable(numerals) && d < 10
    ensures NumeralValue(numerals[d], numerals) == Some(d)
  {
    var r := NumeralValue(numerals[d], numerals);
    assert r.Some?;
  }

  /** Reading numerals back into digits; None when a character is not a numeral. */
  function DigitsOfNumerals(s: string, numerals: string): (r: Option<string>)
    requires |numerals| == 10
    ensures r.Some? ==> AllDigits(r.value) && |r.value| == |s|
    decreases |s|
  {
    if s == [] then Some([])
    else
      match (NumeralValue(s[|s| - 1], numerals), DigitsOfNumerals(s[..|s| - 1], numerals))
      case (Some(d), Some(init)) => Some(init + [DigitChar(d)])
      case _ => None
  }

  /** Reading the numerals of a digit string gives the digits back. */
  lemma {:induction false} NumeralsRoundTrip(digits: string, numerals: string)
    requires AllDigits(digits) && NumeralTable(numerals)
    ensures DigitsOfNumerals(NumeralsOf(digits, numerals), numerals) == Some(digits)
    decreases |digits|
  {
    if digits != [] {
      var s := NumeralsOf(digits, numerals);
      var init := digits[..|digits| - 1];
      assert s[..|s| - 1] == NumeralsOf(init, numerals);
      NumeralsRoundTrip(init, numerals);
      NumeralValueOf(numerals, DigitValue(digits[|digits| - 1]));
      assert digits == init + [digits[|digits| - 1]];
    }
  }

  /** The financial-capital month: 零 before 1 and 2, the digit alone for 3 to 9, 零壹拾 for 10,
      壹拾 and the digit for 11 and 12. */
  function MonthUpper(month: int): (s: string)
    requires 1 <= month <= 12
    ensures 1 <= month <= 2 ==> s == "零" + [UpperNumerals[month]]
    ensures 3 <= month <= 9 ==> s == [UpperNumerals[month]]
    ensures month == 10 ==> s == "零壹拾"
    ensures month >= 11 ==> s == "壹拾" + [UpperNumerals[month - 10]]
  {
    if 1 <= month <= 2 then "零" + [UpperNumerals[month]]
    else if 3 <= month <= 9 then [UpperNumerals[month]]
    else if month == 10 then "零壹拾"
    else "壹拾" + (if month == 11 then [UpperNumerals[1]] else [UpperNumerals[2]])
  }

  /** The financial-capital day: 零 and the digit for 1 to 9, 零壹拾, 零贰拾 and 零叁拾 for the
      round tens, the tens, 拾 and the units otherwise (叁拾壹 for 31). */
  function DayUpper(day: int): (s: string)
    requires 1 <= day <= 31
    ensures day <= 9 ==> s == "零" + [UpperNumerals[day]]
    ensures day % 10 == 0 ==> s == "零" + [UpperNumerals[day / 10]] + "拾"
    ensures day > 10 && day % 10 != 0 ==> s == [UpperNumerals[day / 10]] + "拾" + [UpperNumerals[day % 10]]
  {
    if day <= 9 then "零" + [UpperNumerals[day]]
    else if day == 10 then "零壹拾"
    else if day <= 19 then "壹拾" + [UpperNumerals[day - 10]]
    else if day == 20 then "零贰拾"
    else if day <= 29 then "贰拾" + [UpperNumerals[day - 20]]
    else if day == 30 then "零叁拾"
    else "叁拾壹"
  }

  /** The common-numeral month: the digit below 10, then 十, 十一, 十二. */
  function MonthSimple(month: int): (s: string)
    requires 1 <= month <= 12
    ensures month < 10 ==> s == [SimpleNumerals[month]]
    ensures month >= 10 ==> s == "十" + (if month == 10 then "" else [SimpleNumerals[month - 10]])
  {
    if month < 10 then [SimpleNumerals[month]]
    else if month == 10 then "十"
    else if month == 11 then "十一"
    else "十二"
  }

  /** The common-numeral day: the digit below 10, 十 and the units from 10 to 19 (十 alone for
      10), otherwise the tens, 十, and the units when not zero. */
  function DaySimple(day: int): (s: string)
    requires 1 <= day <= 31
    ensures day < 10 ==> s == [SimpleNumerals[day]]
    ensures 10 <= day < 20 ==> s == "十" + (if day == 10 then "" else [SimpleNumerals[day - 10]])
    ensures day >= 20 ==> s == [SimpleNumerals[day / 10]] + "十" + (if day % 10 > 0 then [SimpleNumerals[day % 10]] else "")
  {
    if day < 10 then [SimpleNumerals[day]]
    else if day < 20 then
      if day == 10 then "十" else "十" + [SimpleNumerals[day - 10]]
    else
      [SimpleNumerals[day / 10]] + "十" + (if day % 10 > 0 then [SimpleNumerals[day % 10]] else "")
  }

  /** Reading a financial-capital numeral of at most two digits: an optional leading 零, then a
      digit, a digit and 拾, or a digit, 拾 and a digit. */
  function ReadUpper(s: string): (r: Option<nat>)
  {
    var t := if |s| > 1 && s[0] == '零' then s[1..] else s;
    if |t| == 1 then NumeralValue(t[0], UpperNumerals)
    else if |t| == 2 && t[1] == '拾' then
      (match NumeralValue(t[0], UpperNumerals) case Some(d) => Some(10 * d) case None => None)
    else if |t| == 3 && t[1] == '拾' then
      (match (NumeralValue(t[0], UpperNumerals), NumeralValue(t[2], UpperNumerals))
       case (Some(d), Some(e)) => Some(10 * d + e)
       case _ => None)
    else None
  }

  /** Reading a common numeral of at most two digits: a digit, 十, 十 and a digit, a digit and 十,
      or a digit, 十 and a digit. */
  function ReadSimple(s: string): (r: Option<nat>)
  {
    if |s| == 1 && s[0] == '十' then Some(10)
    else if |s| == 1 then NumeralValue(s[0], SimpleNumerals)
    else if |s| == 2 && s[0] == '十' then
      (match NumeralValue(s[1], SimpleNumerals) case Some(e) => Some(10 + e) case None => None)
    else if |s| == 2 && s[1] == '十' then
      (match NumeralValue(s[0], SimpleNumerals) case Some(d) => Some(10 * d) case None => None)
    else if |s| == 3 && s[1] == '十' then
      (match (NumeralValue(s[0], SimpleNumerals), NumeralValue(s[2], SimpleNumerals))
       case (Some(d), Some(e)) => Some(10 * d + e)
       case _ => None)
    else None
  }

  /** Every month and day reads back as itself, in both styles. */
  lemma MonthUpperRoundTrip(month: int)
    requires 1 <= month <= 12
    ensures ReadUpper(MonthUpper(month)) == Some(month)
  {
    if month <= 9 {
      UpperDigit(month);
    } else if month == 10 {
      UpperDigit(1);
    } else {
      UpperDigit(month - 10);
    }
  }

  lemma MonthSimpleRoundTrip(month: int)
    requires 1 <= month <= 12
    ensures ReadSimple(MonthSimple(month)) == Some(month)
  {
    if month <= 9 {
      SimpleDigit(month);
    } else if month > 10 {
      SimpleDigit(month - 10);
    }
  }

  lemma DayUpperRoundTrip(day: int)
    requires 1 <= day <= 31
    ensures ReadUpper(DayUpper(day)) == Some(day)
  {
    if day <= 9 {
      UpperDigit(day);
    } else if day % 10 == 0 {
      UpperDigit(day / 10);
    } else {
      UpperDigit(day / 10);
      UpperDigit(day % 10);
    }
  }

  lemma DaySimpleRoundTrip(day: int)
    requires 1 <= day <= 31
    ensures ReadSimple(DaySimple(day)) == Some(day)
  {
    if day <= 9 {
      SimpleDigit(day);
    } else if day < 20 {
      if day > 10 { SimpleDigit(day - 10); }
    } else {
      SimpleDigit(day / 10);
      if day % 10 > 0 { SimpleDigit(day % 10); }
    }
  }

  datatype ConvertDateResponse = ConvertDateResponse(originalDate: string, convertedDate: string)

  const DateFormatMessage: string := "日期格式错误，应为YYYY-MM-DD"

  /** The rendering of a date: the year's digits as numerals, 年, the month, 月, the day, 日. */
  function ChineseDate(year: nat, month: string, day: string, numerals: string): string
    requires |numerals| == 10
  {
    NumeralsOf(Digits(year), numerals) + "年" + month + "月" + day + "日"
  }

  /** ConvertDateToChinese: code 4001 for a string not shaped YYYY-MM-DD, the date library's error
      for a shaped string that is not a real date, else the date in financial capitals. */
  method ConvertDateToChinese(dateStr: string) returns (r: Result<ConvertDateResponse, Fault>)
    ensures !IsValidDateFormat(dateStr) ==> r == Failure(ApiError(4001, DateFormatMessage))
    ensures IsValidDateFormat(dateStr) && ParseDate(dateStr).None? ==> r == Failure(LibraryError("time.Parse"))
    ensures ParseDate(dateStr).Some? ==>
      var d := ParseDate(dateStr).value;
      d.year >= 0 &&
      r == Success(ConvertDateResponse(dateStr, ChineseDate(d.year, MonthUpper(d.month), DayUpper(d.day), UpperNumerals)))
  {
    if !IsValidDateFormat(dateStr) {
      return Failure(ApiError(4001, DateFormatMessage));
    }
    var parsed := ParseDate(dateStr);
    if parsed.None? {
      return Failure(LibraryError("time.Parse"));
    }
    var date := parsed.value;
    var yearStr := YearNumerals(date.year, UpperNumerals);
    var converted := yearStr + "年" + MonthUpper(date.month) + "月" + DayUpper(date.day) + "日";
    return Success(ConvertDateResponse(dateStr, converted));
  }

  /** ConvertDateToChineseSimple: the same checks, the date in common numerals. */
  method ConvertDateToChineseSimple(dateStr: string) returns (r: Result<ConvertDateResponse, Fault>)
    ensures !IsValidDateFormat(dateStr) ==> r == Failure(ApiError(4001, DateFormatMessage))
    ensures IsValidDateFormat(dateStr) && ParseDate(dateStr).None? ==> r == Failure(LibraryError("time.Parse"))
    ensures ParseDate(dateStr).Some? ==>
      var d := ParseDate(dateStr).value;
      d.year >= 0 &&
      r == Success(ConvertDateResponse(dateStr, ChineseDate(d.year, MonthSimple(d.month), DaySimple(d.day), SimpleNumerals)))
  {
    if !IsValidDateFormat(dateStr) {
      return Failure(ApiError(4001, DateFormatMessage));
    }
    var parsed := ParseDate(dateStr);
    if parsed.None? {
      return Failure(LibraryError("time.Parse"));
    }
    var date := parsed.value;
    var yearStr := YearNumerals(date.year, SimpleNumerals);
    var converted := yearStr + "年" + MonthSimple(date.month) + "月" + DaySimple(date.day) + "日";
    return Success(ConvertDateResponse(dateStr, converted));
  }

  /** Cutting at a one-character separator that the text before it does not hold. */
  lemma {:induction false} CutFromSingle(x: string, c: char, y: string, cur: string)
    requires c !in x
    ensures CutFrom(x + [c] + y, [c], cur) == Some((cur + x, y))
    decreases |x|
  {
    var s := x + [c] + y;
    if x == [] {
      assert s[..1] == [c];
      assert s[1..] == y;
      assert cur + x == cur;
    } else {
      assert s[..1] != [c] by { assert s[0] == x[0]; }
      assert s[1..] == x[1..] + [c] + y;
      CutFromSingle(x[1..], c, y, cur + [x[0]]);
      assert cur + [x[0]] + x[1..] == cur + x;
    }
  }

  /** The year, month and day parts of a rendered date: the text before 年, between 年 and 月,
      and between 月 and a final 日. */
  function DateParts(s: string): Option<(string, string, string)> {
    match Cut(s, "年")
    case None => None
    case Some((y, afterYear)) =>
      match Cut(afterYear, "月")
      case None => None
      case Some((m, afterMonth)) =>
        match Cut(afterMonth, "日")
        case Some((d, "")) => Some((y, m, d))
        case _ => None
  }

  /** Reading a rendered date back, given the numerals and the reader of month and day. */
  function ReadChineseDate(s: string, numerals: string, read: string -> Option<nat>): Option<Date>
    requires |numerals| == 10
  {
    match DateParts(s)
    case None => None
    case Some((y, m, d)) =>
      match (DigitsOfNumerals(y, numerals), read(m), read(d))
      case (Some(ys), Some(mv), Some(dv)) => Some(Date(ValueOf(ys), mv, dv))
      case _ => None
  }

  /** None of 年, 月, 日 occurs in s. */
  predicate Unmarked(s: string) {
    '年' !in s && '月' !in s && '日' !in s
  }

  /** Month and day numerals hold no date mark. */
  lemma UpperUnmarked(month: int, day: int)
    requires 1 <= month <= 12 && 1 <= day <= 31
    ensures Unmarked(MonthUpper(month)) && Unmarked(DayUpper(day))
  {
    UpperTable();
  }

  lemma SimpleUnmarked(month: int, day: int)
    requires 1 <= month <= 12 && 1 <= day <= 31
    ensures Unmarked(MonthSimple(month)) && Unmarked(DaySimple(day))
  {
    SimpleTable();
    assert Unmarked(MonthSimple(month));
  }

  lemma DatePartsOf(year: nat, month: string, day: string, numerals: string)
    requires |numerals| == 10 && '年' !in numerals
    requires Unmarked(month) && Unmarked(day)
    ensures DateParts(ChineseDate(year, month, day, numerals)) == Some((NumeralsOf(Digits(year), numerals), month, day))
  {
    var y := NumeralsOf(Digits(year), numerals);
    assert '年' !in y by {
      assert forall i :: 0 <= i < |y| ==> y[i] in numerals;
    }
    var afterYear := month + "月" + day + "日";
    var afterMonth := day + "日";
    assert ChineseDate(year, month, day, numerals) == y + ['年'] + afterYear;
    CutFromSingle(y, '年', afterYear, "");
    assert "" + y == y;
    assert afterYear == month + ['月'] + afterMonth;
    CutFromSingle(month, '月', afterMonth, "");
    assert "" + month == month;
    assert afterMonth == day + ['日'] + "";
    CutFromSingle(day, '日', "", "");
    assert "" + day == day;
  }

  /** Every date a request can name renders in financial capitals and reads back as itself. */
  lemma UpperDateRoundTrip(dateStr: string)
    requires ParseDate(dateStr).Some?
    ensures var d := ParseDate(dateStr).value;
      d.year >= 0 &&
      ReadChineseDate(ChineseDate(d.year, MonthUpper(d.month), DayUpper(d.day), UpperNumerals), UpperNumerals, ReadUpper) == Some(d)
  {
    var d := ParseDate(dateStr).value;
    UpperTable();
    UpperUnmarked(d.month, d.day);
    DatePartsOf(d.year, MonthUpper(d.month), DayUpper(d.day), UpperNumerals);
    NumeralsRoundTrip(Digits(d.year), UpperNumerals);
    ValueOfDigits(d.year);
    MonthUpperRoundTrip(d.month);
    DayUpperRoundTrip(d.day);
  }

  /** Every date a request can name renders in common numerals and reads back as itself. */
  lemma SimpleDateRoundTrip(dateStr: string)
    requires ParseDate(dateStr).Some?
    ensures var d := ParseDate(dateStr).value;
      d.year >= 0 &&
      ReadChineseDate(ChineseDate(d.year, MonthSimple(d.month), DaySimple(d.day), SimpleNumerals), SimpleNumerals, ReadSimple) == Some(d)
  {
    var d := ParseDate(dateStr).value;
    SimpleTable();
    SimpleUnmarked(d.month, d.day);
    DatePartsOf(d.year, MonthSimple(d.month), DaySimple(d.day), SimpleNumerals);
    NumeralsRoundTrip(Digits(d.year), SimpleNumerals);
    ValueOfDigits(d.year);
    MonthSimpleRoundTrip(d.month);
    DaySimpleRoundTrip(d.day);
  }
}
