/**
 * `TimeRangeCalculator` of time_utils.py: reading a CVE disclosure time,
 * deriving the commit search window around it, formatting for the GitHub
 * API and testing whether a commit date falls inside the window.
 */
module TimeUtils {

  import opened Wrappers
  import opened Text
  import opened Calendar
  import opened Strptime
  import opened IsoFormat

  /** `TIME_RANGE_CONFIG['months_before']` and `['months_after']` in config.py. */
  const DefaultMonthsBefore := 6
  const DefaultMonthsAfter := 6

  /** The `strptime` formats `parse_cve_published_date` tries, in order. */
  const CveFormats: seq<Format> := [MinuteZ, SecondZ, FractionZ, SpaceSeconds, DateOnly]

  /** The result of the first of `formats` that parses `s`. */
  function ParseFirst(s: string, formats: seq<Format>): (r: Result<DateTime>)
    ensures r.Ok? <==> exists k :: 0 <= k < |formats| && Parse(s, formats[k]).Ok?
    ensures r.Ok? ==>
      exists k :: 0 <= k < |formats| && r == Parse(s, formats[k]) && forall j :: 0 <= j < k ==> Parse(s, formats[j]).Err?
  {
    if formats == [] then Err("no format matched")
    else match Parse(s, formats[0])
      case Ok(dt) => Ok(dt)
      case Err(_) =>
        var r := ParseFirst(s, formats[1..]);
        FirstFailsShift(s, formats, r);
        r
  }

  /** When the first format fails, the search over the rest answers for the whole list. */
  lemma FirstFailsShift(s: string, formats: seq<Format>, r: Result<DateTime>)
    requires formats != [] && Parse(s, formats[0]).Err?
    requires r.Ok? <==> exists k :: 0 <= k < |formats[1..]| && Parse(s, formats[1..][k]).Ok?
    requires r.Ok? ==>
      exists k :: 0 <= k < |formats[1..]| && r == Parse(s, formats[1..][k]) && forall j :: 0 <= j < k ==> Parse(s, formats[1..][j]).Err?
    ensures r.Ok? <==> exists k :: 0 <= k < |formats| && Parse(s, formats[k]).Ok?
    ensures r.Ok? ==>
      exists k :: 0 <= k < |formats| && r == Parse(s, formats[k]) && forall j :: 0 <= j < k ==> Parse(s, formats[j]).Err?
  {
    FirstFailsAny(s, formats);
    if r.Ok? {
      var k :| 0 <= k < |formats[1..]| && r == Parse(s, formats[1..][k])
        && forall j :: 0 <= j < k ==> Parse(s, formats[1..][j]).Err?;
      FirstFailsIndex(s, formats, k);
    }
  }

  lemma FirstFailsAny(s: string, formats: seq<Format>)
    requires formats != [] && Parse(s, formats[0]).Err?
    ensures (exists k :: 0 <= k < |formats[1..]| && Parse(s, formats[1..][k]).Ok?)
      <==> exists k :: 0 <= k < |formats| && Parse(s, formats[k]).Ok?
  {
    if exists k :: 0 <= k < |formats| && Parse(s, formats[k]).Ok? {
      var k :| 0 <= k < |formats| && Parse(s, formats[k]).Ok?;
      assert formats[1..][k - 1] == formats[k];
    }
    if exists k :: 0 <= k < |formats[1..]| && Parse(s, formats[1..][k]).Ok? {
      var k :| 0 <= k < |formats[1..]| && Parse(s, formats[1..][k]).Ok?;
      assert formats[1..][k] == formats[k + 1];
    }
  }

  lemma FirstFailsIndex(s: string, formats: seq<Format>, k: nat)
    requires formats != [] && Parse(s, formats[0]).Err? && k < |formats[1..]|
    requires forall j :: 0 <= j < k ==> Parse(s, formats[1..][j]).Err?
    ensures formats[k + 1] == formats[1..][k]
    ensures forall j :: 0 <= j < k + 1 ==> Parse(s, formats[j]).Err?
  {
    forall j | 0 <= j < k + 1
      ensures Parse(s, formats[j]).Err?
    {
      if j > 0 {
        assert formats[j] == formats[1..][j - 1];
      }
    }
  }

  /**
   * `parse_cve_published_date`: the first `strptime` format that matches,
   * giving a naive value, else `fromisoformat` with every `Z` spelled `+00:00`.
   */
  function ParseCvePublishedDate(s: string): (r: Result<DateTime>)
    ensures r.Ok? ==> Valid(r.value)
    ensures (exists k :: 0 <= k < |CveFormats| && Parse(s, CveFormats[k]).Ok?) ==> r.Ok? && Naive(r.value)
  {
    match ParseFirst(s, CveFormats)
    case Ok(dt) => Ok(dt)
    case Err(_) => FromIsoFormat(ReplaceChar(s, 'Z', "+00:00"))
  }

  /** `parse_github_commit_date`: `fromisoformat` with every `Z` spelled `+00:00`. */
  function ParseGithubCommitDate(s: string): (r: Result<DateTime>)
    ensures r.Ok? ==> Valid(r.value)
  {
    FromIsoFormat(ReplaceChar(s, 'Z', "+00:00"))
  }

  /** A commit date without `Z` goes to `fromisoformat` unchanged. */
  lemma GithubDateWithoutZ(s: string)
    requires 'Z' !in s
    ensures ParseGithubCommitDate(s) == FromIsoFormat(s)
  {
    ReplaceCharAbsent(s, 'Z', "+00:00");
  }

  /**
   * `calculate_time_range`: the disclosure time shifted back and forward by
   * whole months (six each way unless given), both written as
   * `%Y-%m-%dT%H:%M:%SZ`.
   */
  function CalculateTimeRange(published: string, monthsBefore: Option<int>, monthsAfter: Option<int>)
    : (r: Result<(string, string)>)
    ensures r.Ok? ==> Rfc3339UtcDateTime(r.value.0) && Rfc3339UtcDateTime(r.value.1)
  {
    var before := if monthsBefore.None? then DefaultMonthsBefore else monthsBefore.value;
    var after := if monthsAfter.None? then DefaultMonthsAfter else monthsAfter.value;
    match ParseCvePublishedDate(published)
    case Err(e) => Err(e)
    case Ok(t) =>
      match SubMonths(t, before)
      case Err(e) => Err(e)
      case Ok(since) =>
        match AddMonths(t, after)
        case Err(e) => Err(e)
        case Ok(until) =>
          ShiftsValid(t, before, after);
          Ok((FormatGithub(since), FormatGithub(until)))
  }

  lemma ShiftsValid(t: DateTime, before: int, after: int)
    requires Valid(t) && SubMonths(t, before).Ok? && AddMonths(t, after).Ok?
    ensures Valid(SubMonths(t, before).value) && Rfc3339UtcDateTime(FormatGithub(SubMonths(t, before).value))
    ensures Valid(AddMonths(t, after).value) && Rfc3339UtcDateTime(FormatGithub(AddMonths(t, after).value))
  {
    SubValid(t, before);
    ShiftValid(t, after);
  }

  lemma SubValid(t: DateTime, n: int)
    requires Valid(t) && SubMonths(t, n).Ok?
    ensures Valid(SubMonths(t, n).value) && Rfc3339UtcDateTime(FormatGithub(SubMonths(t, n).value))
  {
    SubMonthsCalendar(t, n);
    FormatGithubRfc3339(SubMonths(t, n).value);
  }

  lemma ShiftValid(t: DateTime, n: int)
    requires Valid(t) && AddMonths(t, n).Ok?
    ensures Valid(AddMonths(t, n).value) && Rfc3339UtcDateTime(FormatGithub(AddMonths(t, n).value))
  {
    AddMonthsCalendar(t, n);
    FormatGithubRfc3339(AddMonths(t, n).value);
  }

  /**
   * `is_commit_in_range`: `since <= commit <= until` with Python's chained
   * comparison; a parse error or a naive/aware comparison gives `false`.
   */
  function IsCommitInRange(commitDate: string, since: string, until: string): (r: bool)
    ensures r ==> (ParseGithubCommitDate(commitDate).Ok? && ParseCvePublishedDate(since).Ok?
                   && ParseCvePublishedDate(until).Ok?)
    ensures r ==> var c, a, b := ParseGithubCommitDate(commitDate).value, ParseCvePublishedDate(since).value,
      ParseCvePublishedDate(until).value;
      Naive(a) == Naive(c) && Naive(c) == Naive(b)
  {
    match ParseGithubCommitDate(commitDate)
    case Err(_) => false
    case Ok(c) =>
      match ParseCvePublishedDate(since)
      case Err(_) => false
      case Ok(a) =>
        match ParseCvePublishedDate(until)
        case Err(_) => false
        case Ok(b) =>
          match LessEq(a, c)
          case Err(_) => false
          case Ok(lower) => lower && LessEq(c, b) == Ok(true)
  }

  // ---------------------------------------------------------------------------
  // Reading back the GitHub timestamp
  // ---------------------------------------------------------------------------

  /** The GitHub timestamp is read by the second format, to the second and naive. */
  lemma ParseCveGithub(dt: DateTime)
    requires Valid(dt)
    ensures ParseCvePublishedDate(FormatGithub(dt)) == Ok(dt.(microsecond := 0, offset := None))
  {
    var s := FormatGithub(dt);
    assert Parse(s, SecondZ) == Ok(dt.(microsecond := 0, offset := None)) by { ParseGithub(dt); }
    assert Parse(s, MinuteZ).Err? by {
      FormatGithubParts(dt);
      MinuteZWidth();
      ParseTooLong(s, MinuteZ);
    }
    SecondWins(s);
  }

  /** The GitHub timestamp holds no `Z` before its last character. */
  lemma GithubNoZ(dt: DateTime)
    requires Valid(dt)
    ensures 'Z' !in DateText(dt) + "T" + TimeText(dt)
  {
    var t := DateText(dt) + "T" + TimeText(dt);
    FormatGithubLayout(dt);
    FormatGithubParts(dt);
    PadDigits(dt.year, 4);
    PadDigits(dt.month, 2);
    PadDigits(dt.day, 2);
    PadDigits(dt.hour, 2);
    PadDigits(dt.minute, 2);
    PadDigits(dt.second, 2);
    var s := FormatGithub(dt);
    assert t == s[..19];
    forall j | 0 <= j < 19 ensures t[j] != 'Z' {
      if j < 4 { assert t[j] == s[0..4][j]; }
      else if 5 <= j < 7 { assert t[j] == s[5..7][j - 5]; }
      else if 8 <= j < 10 { assert t[j] == s[8..10][j - 8]; }
      else if 11 <= j < 13 { assert t[j] == s[11..13][j - 11]; }
      else if 14 <= j < 16 { assert t[j] == s[14..16][j - 14]; }
      else if 17 <= j < 19 { assert t[j] == s[17..19][j - 17]; }
    }
  }

  /** Spelling the `Z` of a GitHub timestamp as `+00:00` gives the `isoformat` text of the UTC value. */
  lemma GithubAsIso(dt: DateTime)
    requires Valid(dt)
    ensures ReplaceChar(FormatGithub(dt), 'Z', "+00:00") == IsoText(dt.(microsecond := 0, offset := Some(0)))
  {
    GithubReplaced(dt);
    UtcSecondIso(dt);
  }

  /** Spelling the `Z` of a GitHub timestamp as `+00:00`. */
  lemma GithubReplaced(dt: DateTime)
    requires Valid(dt)
    ensures ReplaceChar(FormatGithub(dt), 'Z', "+00:00") == DateText(dt) + "T" + TimeText(dt) + "+00:00"
  {
    var t := DateText(dt) + "T" + TimeText(dt);
    assert FormatGithub(dt) == t + "Z";
    GithubNoZ(dt);
    ReplaceCharAppend(t, "Z", 'Z', "+00:00");
    ReplaceCharAbsent(t, 'Z', "+00:00");
    assert ReplaceChar("Z", 'Z', "+00:00") == "+00:00";
  }

  /** `isoformat` of the UTC value to the second. */
  lemma UtcSecondIso(dt: DateTime)
    requires Valid(dt)
    ensures IsoText(dt.(microsecond := 0, offset := Some(0))) == DateText(dt) + "T" + TimeText(dt) + "+00:00"
  {
    var u := dt.(microsecond := 0, offset := Some(0));
    UtcOffsetText();
    assert DateText(u) == DateText(dt) && TimeText(u) == TimeText(dt);
  }

  /** A GitHub timestamp read as a commit date is the aware UTC value, to the second. */
  lemma ParseCommitGithub(dt: DateTime)
    requires Valid(dt)
    ensures ParseGithubCommitDate(FormatGithub(dt)) == Ok(dt.(microsecond := 0, offset := Some(0)))
  {
    GithubAsIso(dt);
    IsoRoundTrip(dt.(microsecond := 0, offset := Some(0)));
  }

  // ---------------------------------------------------------------------------
  // The disclosure times of the sample run
  // ---------------------------------------------------------------------------

  /** The first format of the list that parses `s` decides the result. */
  lemma ParseCveAt(s: string, k: nat)
    requires k < |CveFormats| && Parse(s, CveFormats[k]).Ok?
    requires forall j :: 0 <= j < k ==> Parse(s, CveFormats[j]).Err?
    ensures ParseCvePublishedDate(s) == Parse(s, CveFormats[k])
  {
    if k == 0 {
    } else if k == 1 {
      assert Parse(s, CveFormats[0]).Err?;
      assert CveFormats[1..][0] == CveFormats[1];
    } else {
      assert Parse(s, CveFormats[0]).Err? && Parse(s, CveFormats[1]).Err?;
      assert CveFormats[1..][0] == CveFormats[1];
      assert CveFormats[1..][1..] == CveFormats[2..];
      assert CveFormats[2..][0] == CveFormats[2];
      assert ParseFirst(s, CveFormats[2..]) == Parse(s, CveFormats[k]) by {
        if k == 3 {
          assert Parse(s, CveFormats[2]).Err?;
          assert CveFormats[2..][1..] == CveFormats[3..];
          assert CveFormats[3..][0] == CveFormats[3];
        } else if k == 4 {
          assert Parse(s, CveFormats[2]).Err? && Parse(s, CveFormats[3]).Err?;
          assert CveFormats[2..][1..] == CveFormats[3..];
          assert CveFormats[3..][0] == CveFormats[3];
          assert CveFormats[3..][1..] == CveFormats[4..];
          assert CveFormats[4..][0] == CveFormats[4];
        }
      }
    }
  }

  /** `YYYY-MM-DDTHH:MMZ` reads with seconds and microseconds zero. */
  lemma ParseCveMinute(s: string)
    requires |s| == 17 && DateShape(s) && Field(s, 11, Hour) && s[13] == ':' && Field(s, 14, Minute)
    requires s[16] == 'Z' && Valid(ClockFields(s, 0, 0))
    ensures ParseCvePublishedDate(s) == Ok(ClockFields(s, 0, 0))
  {
    ParseMinuteZ(s);
    assert CveFormats[0] == MinuteZ;
    ParseCveAt(s, 0);
  }

  /** `YYYY-MM-DDTHH:MM:SSZ` is too long for the first format and reads through the second. */
  lemma ParseCveSecond(s: string)
    requires |s| == 20 && DateShape(s) && Field(s, 11, Hour) && s[13] == ':' && Field(s, 14, Minute)
    requires s[16] == ':' && Field(s, 17, Second) && s[19] == 'Z' && Valid(ClockFields(s, TwoDigitValue(s, 17), 0))
    ensures ParseCvePublishedDate(s) == Ok(ClockFields(s, TwoDigitValue(s, 17), 0))
  {
    var dt := ClockFields(s, TwoDigitValue(s, 17), 0);
    assert Parse(s, SecondZ) == Ok(dt) by { ParseSecondZ(s); }
    assert Parse(s, MinuteZ).Err? by { MinuteZWidth(); ParseTooLong(s, MinuteZ); }
    SecondWins(s);
  }

  /** `YYYY-MM-DDTHH:MM:SS.fZ` with one to six digits reads through the third format. */
  lemma ParseCveFraction(s: string, k: nat)
    requires 1 <= k <= 6 && |s| == 21 + k && DateShape(s)
    requires Field(s, 11, Hour) && s[13] == ':' && Field(s, 14, Minute)
    requires s[16] == ':' && Field(s, 17, Second) && s[19] == '.'
    requires AllDigits(s[20..20 + k]) && s[20 + k] == 'Z'
    requires Valid(ClockFields(s, TwoDigitValue(s, 17), DigitsValue(s[20..20 + k]) * Power10(6 - k)))
    ensures ParseCvePublishedDate(s) == Ok(ClockFields(s, TwoDigitValue(s, 17), DigitsValue(s[20..20 + k]) * Power10(6 - k)))
  {
    var dt := ClockFields(s, TwoDigitValue(s, 17), DigitsValue(s[20..20 + k]) * Power10(6 - k));
    assert Parse(s, MinuteZ).Err? by { MinuteZWidth(); ParseTooLong(s, MinuteZ); }
    assert Parse(s, SecondZ).Err? by { SecondZWidth(); ParseTooLong(s, SecondZ); }
    assert Parse(s, FractionZ) == Ok(dt) by { ParseFractionZ(s, k); }
    FractionWins(s);
  }

  /** A text the first format refuses and the second reads is read by the second. */
  lemma SecondWins(s: string)
    requires Parse(s, MinuteZ).Err? && Parse(s, SecondZ).Ok?
    ensures ParseCvePublishedDate(s) == Parse(s, SecondZ)
  {
    assert CveFormats[0] == MinuteZ && CveFormats[1] == SecondZ;
    ParseCveAt(s, 1);
  }

  /** A text the first two formats refuse and the third reads is read by the third. */
  lemma FractionWins(s: string)
    requires Parse(s, MinuteZ).Err? && Parse(s, SecondZ).Err? && Parse(s, FractionZ).Ok?
    ensures ParseCvePublishedDate(s) == Parse(s, FractionZ)
  {
    assert CveFormats[0] == MinuteZ && CveFormats[1] == SecondZ && CveFormats[2] == FractionZ;
    assert forall j :: 0 <= j < 2 ==> Parse(s, CveFormats[j]).Err?;
    ParseCveAt(s, 2);
  }

  lemma ParseMinuteExample(s: string)
    requires s == "2020-02-04T17:15Z"
    ensures ParseCvePublishedDate(s) == Ok(DateTime(2020, 2, 4, 17, 15, 0, 0, None))
  {
    assert DateShape(s) && Field(s, 11, Hour) && Field(s, 14, Minute);
    assert ClockFields(s, 0, 0) == DateTime(2020, 2, 4, 17, 15, 0, 0, None);
    ParseCveMinute(s);
  }

  lemma ParseSecondExample(s: string)
    requires s == "2020-02-04T17:15:30Z"
    ensures ParseCvePublishedDate(s) == Ok(DateTime(2020, 2, 4, 17, 15, 30, 0, None))
  {
    assert DateShape(s) && Field(s, 11, Hour) && Field(s, 14, Minute) && Field(s, 17, Second);
    assert ClockFields(s, 30, 0) == DateTime(2020, 2, 4, 17, 15, 30, 0, None);
    ParseCveSecond(s);
  }

  // ---------------------------------------------------------------------------
  // The search window
  // ---------------------------------------------------------------------------

  /** `r` is `t` moved by `n` months, day clamped, clock kept to the second, naive. */
  predicate Shifted(r: Result<DateTime>, t: DateTime, n: int)
  {
    r.Ok? && Valid(r.value) && Naive(r.value)
    && MonthIndex(r.value.year, r.value.month) == MonthIndex(t.year, t.month) + n
    && r.value.day == Min(t.day, DaysInMonth(r.value.year, r.value.month))
    && r.value.hour == t.hour && r.value.minute == t.minute && r.value.second == t.second
    && r.value.microsecond == 0
  }

  /**
   * Both bounds of the window read back as the disclosure time moved
   * `before` months back and `after` months forward, to the second.
   */
  lemma WindowReparse(published: string, before: int, after: int)
    requires CalculateTimeRange(published, Some(before), Some(after)).Ok?
    ensures ParseCvePublishedDate(published).Ok?
    ensures var t := ParseCvePublishedDate(published).value;
      var w := CalculateTimeRange(published, Some(before), Some(after)).value;
      Shifted(ParseCvePublishedDate(w.0), t, -before) && Shifted(ParseCvePublishedDate(w.1), t, after)
  {
    WindowSince(published, before, after);
    WindowUntil(published, before, after);
  }

  lemma WindowSince(published: string, before: int, after: int)
    requires CalculateTimeRange(published, Some(before), Some(after)).Ok?
    ensures ParseCvePublishedDate(published).Ok?
    ensures Shifted(ParseCvePublishedDate(CalculateTimeRange(published, Some(before), Some(after)).value.0),
      ParseCvePublishedDate(published).value, -before)
  {
    var t := ParseCvePublishedDate(published).value;
    var w := CalculateTimeRange(published, Some(before), Some(after)).value;
    WindowBounds(published, before, after);
    SubReparse(t, before, w.0);
  }

  lemma SubReparse(t: DateTime, n: int, text: string)
    requires Valid(t) && SubMonths(t, n).Ok? && text == FormatGithub(SubMonths(t, n).value)
    ensures Shifted(ParseCvePublishedDate(text), t, -n)
  {
    SubMonthsCalendar(t, n);
    ParseCveGithub(SubMonths(t, n).value);
  }

  lemma WindowUntil(published: string, before: int, after: int)
    requires CalculateTimeRange(published, Some(before), Some(after)).Ok?
    ensures ParseCvePublishedDate(published).Ok?
    ensures Shifted(ParseCvePublishedDate(CalculateTimeRange(published, Some(before), Some(after)).value.1),
      ParseCvePublishedDate(published).value, after)
  {
    var t := ParseCvePublishedDate(published).value;
    var w := CalculateTimeRange(published, Some(before), Some(after)).value;
    WindowBounds(published, before, after);
    ShiftReparse(t, after, w.1);
  }

  lemma WindowBounds(published: string, before: int, after: int)
    requires CalculateTimeRange(published, Some(before), Some(after)).Ok?
    ensures ParseCvePublishedDate(published).Ok?
    ensures var t := ParseCvePublishedDate(published).value;
      SubMonths(t, before).Ok? && AddMonths(t, after).Ok?
      && CalculateTimeRange(published, Some(before), Some(after)).value
         == (FormatGithub(SubMonths(t, before).value), FormatGithub(AddMonths(t, after).value))
  {
  }

  lemma ShiftReparse(t: DateTime, n: int, text: string)
    requires Valid(t) && AddMonths(t, n).Ok? && text == FormatGithub(AddMonths(t, n).value)
    ensures Shifted(ParseCvePublishedDate(text), t, n)
  {
    AddMonthsCalendar(t, n);
    ParseCveGithub(AddMonths(t, n).value);
  }

  lemma MonthIndexOrder(y1: int, m1: int, y2: int, m2: int)
    requires 1 <= m1 <= 12 && 1 <= m2 <= 12
    ensures MonthIndex(y1, m1) < MonthIndex(y2, m2) ==> y1 < y2 || (y1 == y2 && m1 < m2)
    ensures MonthIndex(y1, m1) == MonthIndex(y2, m2) ==> y1 == y2 && m1 == m2
  {
    if y1 > y2 {
      assert y1 * 12 >= y2 * 12 + 12;
    } else if y1 < y2 {
      assert y2 * 12 >= y1 * 12 + 12;
    }
  }

  /** Two shifts of the same time are ordered as their month counts. */
  lemma ShiftedOrder(a: Result<DateTime>, b: Result<DateTime>, t: DateTime, n1: int, n2: int)
    requires Shifted(a, t, n1) && Shifted(b, t, n2) && n1 <= n2
    ensures LessEq(a.value, b.value) == Ok(true)
  {
    MonthIndexOrder(a.value.year, a.value.month, b.value.year, b.value.month);
  }

  /** With non-negative shifts the window is never empty: `since <= until`. */
  lemma WindowOrdered(published: string, before: int, after: int)
    requires before >= 0 && after >= 0 && CalculateTimeRange(published, Some(before), Some(after)).Ok?
    ensures var w := CalculateTimeRange(published, Some(before), Some(after)).value;
      ParseCvePublishedDate(w.0).Ok? && ParseCvePublishedDate(w.1).Ok?
      && LessEq(ParseCvePublishedDate(w.0).value, ParseCvePublishedDate(w.1).value) == Ok(true)
  {
    WindowReparse(published, before, after);
    var w := CalculateTimeRange(published, Some(before), Some(after)).value;
    ShiftedOrder(ParseCvePublishedDate(w.0), ParseCvePublishedDate(w.1), ParseCvePublishedDate(published).value,
      -before, after);
  }

  /** A shift of zero months changes nothing. */
  lemma AddZeroMonths(t: DateTime)
    requires Valid(t)
    ensures AddMonths(t, 0) == Ok(t) && SubMonths(t, 0) == Ok(t)
  {
  }

  /** With no shift both bounds are the formatted disclosure time. */
  lemma WindowZero(published: string)
    requires ParseCvePublishedDate(published).Ok?
    ensures var t := ParseCvePublishedDate(published).value;
      CalculateTimeRange(published, Some(0), Some(0)) == Ok((FormatGithub(t), FormatGithub(t)))
  {
    AddZeroMonths(ParseCvePublishedDate(published).value);
  }

  /** The window of the sample run, six months each way by default. */
  lemma WindowExample(published: string)
    requires published == "2020-02-04T17:15Z"
    ensures CalculateTimeRange(published, None, None) == Ok(("2019-08-04T17:15:00Z", "2020-08-04T17:15:00Z"))
  {
    ParseMinuteExample(published);
    ShiftExample();
    FormatSinceExample(DateTime(2019, 8, 4, 17, 15, 0, 0, None), "2019-08-04T17:15:00Z");
    FormatUntilExample(DateTime(2020, 8, 4, 17, 15, 0, 0, None), "2020-08-04T17:15:00Z");
  }

  lemma ShiftExample()
    ensures SubMonths(DateTime(2020, 2, 4, 17, 15, 0, 0, None), 6) == Ok(DateTime(2019, 8, 4, 17, 15, 0, 0, None))
    ensures AddMonths(DateTime(2020, 2, 4, 17, 15, 0, 0, None), 6) == Ok(DateTime(2020, 8, 4, 17, 15, 0, 0, None))
  {
  }

  lemma PadExamples()
    ensures Pad(2019, 4) == "2019" && Pad(2020, 4) == "2020"
    ensures Pad(8, 2) == "08" && Pad(4, 2) == "04" && Pad(17, 2) == "17" && Pad(15, 2) == "15" && Pad(0, 2) == "00"
  {
    assert Pad(2, 1) == "2" && Pad(20, 2) == "20" && Pad(201, 3) == "201" && Pad(202, 3) == "202";
  }

  lemma FormatSinceExample(dt: DateTime, text: string)
    requires dt == DateTime(2019, 8, 4, 17, 15, 0, 0, None) && text == "2019-08-04T17:15:00Z"
    ensures Valid(dt) && FormatGithub(dt) == text
  {
    assert DateText(dt) == "2019-08-04" by { PadExamples(); }
    assert TimeText(dt) == "17:15:00" by { PadExamples(); }
  }

  lemma FormatUntilExample(dt: DateTime, text: string)
    requires dt == DateTime(2020, 8, 4, 17, 15, 0, 0, None) && text == "2020-08-04T17:15:00Z"
    ensures Valid(dt) && FormatGithub(dt) == text
  {
    assert DateText(dt) == "2020-08-04" by { PadExamples(); }
    assert TimeText(dt) == "17:15:00" by { PadExamples(); }
  }

  // ---------------------------------------------------------------------------
  // Membership in the window
  // ---------------------------------------------------------------------------

  /**
   * When the three dates parse and are all naive or all aware, membership is
   * `since <= commit <= until` on the time line, both bounds included.
   */
  lemma InRangeMeaning(commitDate: string, since: string, until: string)
    requires ParseGithubCommitDate(commitDate).Ok? && ParseCvePublishedDate(since).Ok? && ParseCvePublishedDate(until).Ok?
    requires var c, a, b := ParseGithubCommitDate(commitDate).value, ParseCvePublishedDate(since).value,
      ParseCvePublishedDate(until).value;
      Naive(c) == Naive(a) && Naive(c) == Naive(b)
    ensures var c, a, b := ParseGithubCommitDate(commitDate).value, ParseCvePublishedDate(since).value,
      ParseCvePublishedDate(until).value;
      IsCommitInRange(commitDate, since, until) <==>
        if Naive(c) then LocalMicros(a) <= LocalMicros(c) <= LocalMicros(b)
        else UtcMicros(a) <= UtcMicros(c) <= UtcMicros(b)
  {
    var c, a, b := ParseGithubCommitDate(commitDate).value, ParseCvePublishedDate(since).value,
      ParseCvePublishedDate(until).value;
    if Naive(c) {
      FieldsLeChronological(a, c);
      FieldsLeChronological(c, b);
    }
  }

  /** A commit dated exactly at either bound of an ordered window is inside it. */
  lemma InRangeAtBounds(commitDate: string, since: string, until: string)
    requires ParseCvePublishedDate(since).Ok? && ParseCvePublishedDate(until).Ok?
    requires LessEq(ParseCvePublishedDate(since).value, ParseCvePublishedDate(until).value) == Ok(true)
    requires ParseGithubCommitDate(commitDate) == ParseCvePublishedDate(since)
      || ParseGithubCommitDate(commitDate) == ParseCvePublishedDate(until)
    ensures IsCommitInRange(commitDate, since, until)
  {
    var a, b := ParseCvePublishedDate(since).value, ParseCvePublishedDate(until).value;
    FieldsLeChronological(a, a);
    FieldsLeChronological(b, b);
  }

  /**
   * A commit date in GitHub's `Z` form is never inside a window from
   * `CalculateTimeRange`: it reads as an aware value, the bounds as naive
   * ones, and comparing the two raises.
   */
  lemma GithubCommitNeverInWindow(dt: DateTime, published: string, before: int, after: int)
    requires Valid(dt) && CalculateTimeRange(published, Some(before), Some(after)).Ok?
    ensures var w := CalculateTimeRange(published, Some(before), Some(after)).value;
      !IsCommitInRange(FormatGithub(dt), w.0, w.1)
  {
    ParseCommitGithub(dt);
    WindowReparse(published, before, after);
  }

  // ---------------------------------------------------------------------------
  // Membership with the bounds read as UTC
  // ---------------------------------------------------------------------------

  /** A value without an offset labelled UTC, as the `Z` the window bounds are written with says. */
  function AsUtc(dt: DateTime): DateTime
  {
    if Naive(dt) then dt.(offset := Some(0)) else dt
  }

  /**
   * The membership test the window calls for: the commit date and both
   * bounds compared as UTC instants, so that a GitHub `Z` date can be held
   * against the bounds `CalculateTimeRange` writes.
   */
  function IsCommitInRangeUtc(commitDate: string, since: string, until: string): (r: bool)
    ensures r ==> (ParseGithubCommitDate(commitDate).Ok? && ParseCvePublishedDate(since).Ok?
                   && ParseCvePublishedDate(until).Ok?)
  {
    match ParseGithubCommitDate(commitDate)
    case Err(_) => false
    case Ok(c) =>
      match ParseCvePublishedDate(since)
      case Err(_) => false
      case Ok(a) =>
        match ParseCvePublishedDate(until)
        case Err(_) => false
        case Ok(b) => UtcMicros(AsUtc(a)) <= UtcMicros(AsUtc(c)) <= UtcMicros(AsUtc(b))
  }

  /**
   * Where the code as written can compare at all (all three dates parse, all
   * naive or all aware), reading the bounds as UTC changes nothing.
   */
  lemma InRangeUtcAgrees(commitDate: string, since: string, until: string)
    requires ParseGithubCommitDate(commitDate).Ok? && ParseCvePublishedDate(since).Ok? && ParseCvePublishedDate(until).Ok?
    requires var c, a, b := ParseGithubCommitDate(commitDate).value, ParseCvePublishedDate(since).value,
      ParseCvePublishedDate(until).value;
      Naive(c) == Naive(a) && Naive(c) == Naive(b)
    ensures IsCommitInRangeUtc(commitDate, since, until) == IsCommitInRange(commitDate, since, until)
  {
    InRangeMeaning(commitDate, since, until);
  }

  /**
   * With the bounds read as UTC, a GitHub commit date is inside the window
   * exactly when its time, to the second, lies between the two bounds.
   */
  lemma GithubInWindowUtc(dt: DateTime, published: string, before: int, after: int)
    requires Valid(dt) && CalculateTimeRange(published, Some(before), Some(after)).Ok?
    ensures var w := CalculateTimeRange(published, Some(before), Some(after)).value;
      ParseCvePublishedDate(w.0).Ok? && ParseCvePublishedDate(w.1).Ok?
    ensures var w := CalculateTimeRange(published, Some(before), Some(after)).value;
      var a, b := ParseCvePublishedDate(w.0).value, ParseCvePublishedDate(w.1).value;
      IsCommitInRangeUtc(FormatGithub(dt), w.0, w.1) <==>
        LocalMicros(a) <= LocalMicros(dt.(microsecond := 0)) <= LocalMicros(b)
  {
    ParseCommitGithub(dt);
    WindowReparse(published, before, after);
  }

  /** Both bounds of a window with non-negative shifts, read as commit dates, are inside it. */
  lemma WindowBoundsInside(published: string, before: int, after: int)
    requires before >= 0 && after >= 0 && CalculateTimeRange(published, Some(before), Some(after)).Ok?
    ensures var w := CalculateTimeRange(published, Some(before), Some(after)).value;
      IsCommitInRangeUtc(w.0, w.0, w.1) && IsCommitInRangeUtc(w.1, w.0, w.1)
  {
    var t := ParseCvePublishedDate(published).value;
    var w := CalculateTimeRange(published, Some(before), Some(after)).value;
    WindowBounds(published, before, after);
    ShiftsValid(t, before, after);
    var lo, hi := SubMonths(t, before).value, AddMonths(t, after).value;
    assert w.0 == FormatGithub(lo) && w.1 == FormatGithub(hi);
    WindowOrdered(published, before, after);
    BoundsInside(lo, hi, w.0, w.1);
  }

  lemma BoundsInside(lo: DateTime, hi: DateTime, since: string, until: string)
    requires Valid(lo) && Valid(hi) && since == FormatGithub(lo) && until == FormatGithub(hi)
    requires ParseCvePublishedDate(since).Ok? && ParseCvePublishedDate(until).Ok?
    requires LessEq(ParseCvePublishedDate(since).value, ParseCvePublishedDate(until).value) == Ok(true)
    ensures IsCommitInRangeUtc(since, since, until) && IsCommitInRangeUtc(until, since, until)
  {
    ParseCommitGithub(lo);
    ParseCommitGithub(hi);
    ParseCveGithub(lo);
    ParseCveGithub(hi);
    FieldsLeChronological(ParseCvePublishedDate(since).value, ParseCvePublishedDate(until).value);
  }
}
