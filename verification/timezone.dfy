/** The time service's timezone descriptor: which zone a request names (an explicit hour offset,
    an alias, a zone name, or the default Asia/Shanghai), its current UTC offset split into hours
    and minutes with Go's truncating arithmetic, and its Chinese label (东N区, 西N区, 0区).
    The zone database and the clock are an input: `zones` maps each zone name time.LoadLocation
    accepts to that zone's UTC offset, in seconds, at the current instant. */
module Timezone {
  import opened Outcome
  import opened Decimal

  /** The aliases the service accepts, each mapped to its zone name. */
  const SupportedTimezones: map<string, string> := map[
    "asia_shanghai" := "Asia/Shanghai",
    "america_new_york" := "America/New_York",
    "europe_london" := "Europe/London",
    "asia_tokyo" := "Asia/Tokyo",
    "australia_sydney" := "Australia/Sydney",
    "europe_paris" := "Europe/Paris",
    "america_los_angeles" := "America/Los_Angeles"]

  /** The fixed labels of the zones behind the aliases. */
  const TimezoneDescriptions: map<string, string> := map[
    "Asia/Shanghai" := "东8区",
    "America/New_York" := "西5区",
    "Europe/London" := "0区",
    "Asia/Tokyo" := "东9区",
    "Australia/Sydney" := "东10区",
    "Europe/Paris" := "东1区",
    "America/Los_Angeles" := "西8区"]

  const DefaultZone: string := "Asia/Shanghai"

  datatype TimezoneInfo = TimezoneInfo(
    name: string, offsetHours: int, offsetMinutes: int, offsetSeconds: int, description: string)

  /** Every alias leads to a zone that has a fixed label. */
  lemma AliasesHaveDescriptions()
    ensures forall a :: a in SupportedTimezones ==> SupportedTimezones[a] in TimezoneDescriptions
  {
  }

  /** The zone name to load for a requested name: its alias target, or the name itself. */
  function ResolveAlias(name: string): (z: string)
    ensures name in SupportedTimezones ==> z == SupportedTimezones[name] && z in TimezoneDescriptions
    ensures name !in SupportedTimezones ==> z == name
  {
    if name in SupportedTimezones then SupportedTimezones[name] else name
  }

  /** The zone name and offset in seconds getTimezoneInfo settles on, in order of precedence:
      an explicit hour offset (the name is kept as given and no alias is looked up), then a
      requested name (through the alias table, failing when the zone does not load), then the
      default zone. Loading the default zone cannot fail in the source; when it does, the nil
      location makes the next call panic. */
  function ResolveZone(name: string, tzOffset: Option<int>, zones: map<string, int>): (r: Result<(string, int), Fault>)
    requires tzOffset.Some? ==> InInt64(tzOffset.value)
    ensures tzOffset.Some? ==> r == Success((name, WrapInt64(tzOffset.value * 3600)))
    ensures tzOffset.None? && name != "" ==>
      (r.Success? <==> ResolveAlias(name) in zones) &&
      (r.Success? ==> r.value == (ResolveAlias(name), zones[ResolveAlias(name)])) &&
      (r.Failure? ==> r.error.LibraryError?)
    ensures tzOffset.None? && name == "" ==>
      (r.Success? <==> DefaultZone in zones) &&
      (r.Success? ==> r.value == (DefaultZone, zones[DefaultZone])) &&
      (r.Failure? ==> r.error.RuntimePanic?)
  {
    if tzOffset.Some? then
      Success((name, WrapInt64(tzOffset.value * 3600)))
    else if name != "" then
      var zone := ResolveAlias(name);
      if zone in zones then Success((zone, zones[zone]))
      else Failure(LibraryError("time.LoadLocation"))
    else if DefaultZone in zones then
      Success((DefaultZone, zones[DefaultZone]))
    else
      Failure(RuntimePanic("time: missing Location in call to Time.In"))
  }

  /** offset / 3600 and (offset % 3600) / 60 with Go's truncating operators: whole hours, then the
      whole minutes left over, both with the sign of the offset, and together with the seconds
      left over they add back up to the offset. */
  function SplitOffset(offset: int): (r: (int, int))
    ensures offset == r.0 * 3600 + r.1 * 60 + TruncRem(offset, 60)
    ensures -60 < r.1 < 60
    ensures offset >= 0 ==> r.0 >= 0 && r.1 >= 0 && r.0 == offset / 3600
    ensures offset <= 0 ==> r.0 <= 0 && r.1 <= 0 && r.0 == -((-offset) / 3600)
  {
    var hours := TruncDiv(offset, 3600);
    var minutes := TruncDiv(TruncRem(offset, 3600), 60);
    SplitOffsetSum(offset);
    (hours, minutes)
  }

  lemma SplitOffsetSum(offset: int)
    ensures offset == TruncDiv(offset, 3600) * 3600 + TruncDiv(TruncRem(offset, 3600), 60) * 60 + TruncRem(offset, 60)
  {
    var rem := TruncRem(offset, 3600);
    assert TruncRem(rem, 60) == TruncRem(offset, 60) by {
      if offset >= 0 {
        ModOfMod(offset);
      } else {
        ModOfMod(-offset);
      }
    }
  }

  lemma ModOfMod(x: nat)
    ensures (x % 3600) % 60 == x % 60
  {
    var q, r := x / 3600, x % 3600;
    var a, b := r / 60, r % 60;
    var c, e := x / 60, x % 60;
    assert x == 3600 * q + r && r == 60 * a + b && x == 60 * c + e;
    var k := c - 60 * q - a;
    assert 60 * k == b - e;
    assert k == 0;
  }

  /** The label made from whole hours: 东N区 east of UTC, 西N区 (N = -hours) west of it, else 0区. */
  function OffsetLabel(hours: int): (s: string)
    ensures |s| >= 2 && s[|s| - 1] == '区'
    ensures hours > 0 ==> s[0] == '东'
    ensures hours < 0 ==> s[0] == '西'
    ensures hours == 0 ==> s == "0区"
    ensures hours != 0 ==>
      AllDigits(s[1..|s| - 1]) && s[1] != '0' && ValueOf(s[1..|s| - 1]) == (if hours > 0 then hours else -hours)
  {
    var n := if hours > 0 then hours else -hours;
    ValueOfDigits(n);
    assert hours != 0 ==> ("东" + Itoa(hours) + "区")[1..|Itoa(hours)| + 1] == Itoa(hours);
    assert hours != 0 ==> ("西" + Itoa(-hours) + "区")[1..|Itoa(-hours)| + 1] == Itoa(-hours);
    if hours > 0 then "东" + Itoa(hours) + "区"
    else if hours < 0 then "西" + Itoa(-hours) + "区"
    else "0区"
  }

  /** Different whole-hour offsets get different labels. */
  lemma OffsetLabelInjective(a: int, b: int)
    ensures OffsetLabel(a) == OffsetLabel(b) ==> a == b
  {
    if OffsetLabel(a) == OffsetLabel(b) && a != 0 && b != 0 {
      var s := OffsetLabel(a);
      var n := if a > 0 then a else -a;
      var m := if b > 0 then b else -b;
      assert s[1..|s| - 1] == Itoa(n) == Itoa(m);
      ItoaInjective(n, m);
    }
  }

  /** The zone's label: the fixed one when its name has one, else the label of its whole hours.
      It is never empty. */
  function Description(name: string, hours: int): (s: string)
    ensures s != ""
    ensures name in TimezoneDescriptions ==> s == TimezoneDescriptions[name]
    ensures name !in TimezoneDescriptions ==> s == OffsetLabel(hours)
  {
    var fixed := if name in TimezoneDescriptions then TimezoneDescriptions[name] else "";
    if fixed == "" then OffsetLabel(hours) else fixed
  }

  /** getTimezoneInfo. The label is looked up by the name the zone ended up with, so an explicit
      offset given together with a zone name that has a fixed label reports that label. */
  function GetTimezoneInfo(name: string, tzOffset: Option<int>, zones: map<string, int>): (r: Result<TimezoneInfo, Fault>)
    requires tzOffset.Some? ==> InInt64(tzOffset.value)
    ensures r.Failure? <==> ResolveZone(name, tzOffset, zones).Failure?
    ensures r.Success? ==>
      var (zone, offset) := ResolveZone(name, tzOffset, zones).value;
      var info := r.value;
      info.name == zone && info.offsetSeconds == offset &&
      info.offsetSeconds == info.offsetHours * 3600 + info.offsetMinutes * 60 + TruncRem(offset, 60) &&
      -60 < info.offsetMinutes < 60 &&
      info.description != "" &&
      (info.offsetHours, info.offsetMinutes) == SplitOffset(offset) &&
      info.description == Description(zone, info.offsetHours)
  {
    match ResolveZone(name, tzOffset, zones)
    case Failure(e) => Failure(e)
    case Success((zone, offset)) =>
      var (hours, minutes) := SplitOffset(offset);
      Success(TimezoneInfo(zone, hours, minutes, offset, Description(zone, hours)))
  }

  /** An explicit offset takes precedence over any name: the name is echoed unchanged, the offset
      is offset * 3600 seconds (in 64-bit arithmetic), and within the zones' real range it splits
      back into the requested hours and no minutes. */
  lemma ExplicitOffsetWins(name: string, h: int, zones: map<string, int>)
    requires InInt64(h)
    ensures var r := GetTimezoneInfo(name, Some(h), zones);
      r.Success? && r.value.name == name && r.value.offsetSeconds == WrapInt64(h * 3600) &&
      (-TwoTo63 / 3600 < h < TwoTo63 / 3600 ==> r.value.offsetHours == h && r.value.offsetMinutes == 0)
  {
    if -TwoTo63 / 3600 < h < TwoTo63 / 3600 {
      assert InInt64(h * 3600);
      if h < 0 {
        assert (-(h * 3600)) / 3600 == -h;
      }
    }
  }

  /** The hour offsets the service lists as available: -12 to 14. */
  const AvailableOffsets: seq<int> := [-12, -11, -10, -9, -8, -7, -6, -5, -4, -3, -2, -1, 0, 1, 2, 3, 4, 5, 6, 7, 8, 9, 10, 11, 12, 13, 14]

  lemma AvailableOffsetsRange()
    ensures |AvailableOffsets| == 27
    ensures forall i :: 0 <= i < |AvailableOffsets| ==> AvailableOffsets[i] == i - 12
  {
  }
}
