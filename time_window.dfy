/**
 * `TimeWindowAnalyzer` of the offline analysis script: its two timestamp
 * readers, the signed distance between a disclosure and the commit that
 * fixed it, the before/after counters of `analyze` and the percentile and
 * histogram parts of `_print_statistics`. Distances are kept as integer
 * microseconds; the source divides them into floating-point days.
 */
module TimeWindow {

  import opened Wrappers
  import opened Text
  import opened Calendar
  import opened Strptime
  import opened IsoFormat
  import opened TimeUtils

  // ---------------------------------------------------------------------------
  // Reading the two timestamps
  // ---------------------------------------------------------------------------

  /** The `strptime` formats `parse_cve_time` tries, in order, all ending in `Z`. */
  const CveZFormats: seq<Format> := [MinuteZ, SecondZ, FractionZ]

  /**
   * `parse_cve_time`: the first of the three `Z` formats that parses, labelled
   * UTC; else `fromisoformat` with every `Z` spelled `+00:00`.
   */
  function ParseCveTime(s: string): (r: Result<DateTime>)
    ensures r.Ok? ==> Valid(r.value)
    ensures ParseFirst(s, CveZFormats).Ok? ==> r.Ok? && r.value.offset == Some(0)
  {
    match ParseFirst(s, CveZFormats)
    case Ok(dt) => Ok(dt.(offset := Some(0)))
    case Err(_) => FromIsoFormat(ReplaceChar(s, 'Z', "+00:00"))
  }

  /** Trying `a` and then `b` is trying `a + b`. */
  lemma {:induction false} ParseFirstAppend(s: string, a: seq<Format>, b: seq<Format>)
    ensures ParseFirst(s, a + b) == if ParseFirst(s, a).Ok? then ParseFirst(s, a) else ParseFirst(s, b)
    decreases |a|
  {
    if a == [] {
      assert a + b == b;
    } else {
      assert (a + b)[0] == a[0] && (a + b)[1..] == a[1..] + b;
      ParseFirstAppend(s, a[1..], b);
    }
  }

  /**
   * On a `Z` timestamp the analyser and the search-window code read the same
   * clock; only the analyser attaches UTC to it.
   */
  lemma CveTimeAgrees(s: string)
    requires ParseFirst(s, CveZFormats).Ok?
    ensures ParseCvePublishedDate(s).Ok? && Naive(ParseCvePublishedDate(s).value)
    ensures ParseCveTime(s) == Ok(ParseCvePublishedDate(s).value.(offset := Some(0)))
  {
    assert CveFormats == CveZFormats + [SpaceSeconds, DateOnly];
    ParseFirstAppend(s, CveZFormats, [SpaceSeconds, DateOnly]);
  }

  /** The sample in the docstring of `parse_cve_time`. */
  lemma CveTimeExample(s: string)
    requires s == "2020-12-11T19:15Z"
    ensures ParseCveTime(s) == Ok(DateTime(2020, 12, 11, 19, 15, 0, 0, Some(0)))
  {
    assert DateShape(s) && Field(s, 11, Hour) && Field(s, 14, Minute);
    assert ClockFields(s, 0, 0) == DateTime(2020, 12, 11, 19, 15, 0, 0, None);
    ParseMinuteZ(s);
    assert CveZFormats[0] == MinuteZ;
    assert ParseFirst(s, CveZFormats).Ok?;
    CveTimeAgrees(s);
    ParseCveMinute(s);
  }

  /** The date part holds only digits and `-`. */
  lemma DateChars(u: string)
    requires DateSyntax(u)
    ensures forall j :: 0 <= j < 10 ==> IsDigit(u[j]) || u[j] == '-'
  {
    forall j | 0 <= j < 10
      ensures IsDigit(u[j]) || u[j] == '-'
    {
      if j < 4 { assert u[0..4][j] == u[j]; }
      else if 4 < j < 7 { assert u[5..7][j - 5] == u[j]; }
      else if 7 < j { assert u[8..10][j - 8] == u[j]; }
    }
  }

  /** A `+` in a text `fromisoformat` accepts belongs to the offset. */
  lemma PlusMeansAware(u: string)
    requires '+' in u
    ensures FromIsoFormat(u).Ok? ==> !Naive(FromIsoFormat(u).value)
  {
    if FromIsoFormat(u).Ok? {
      var i :| 0 <= i < |u| && u[i] == '+';
      DateChars(u);
      assert 11 <= i < |u| && IsSign(u[i]);
    }
  }

  /**
   * `parse_commit_time`. With a `+`: a trailing `+00` is widened to `+00:00`
   * and the text goes to `fromisoformat`. Without one: a text ending in `00`
   * has those two characters replaced by `+00:00`, whatever they were; any
   * other text is read as `%Y-%m-%d %H:%M:%S` and labelled UTC. Every value
   * it returns is aware.
   */
  function ParseCommitTime(s: string): (r: Result<DateTime>)
    ensures r.Ok? ==> Valid(r.value) && !Naive(r.value)
  {
    if '+' in s then
      if EndsWith(s, "+00") then
        var u := s[..|s| - 3] + "+00:00";
        assert u[|s| - 3] == '+';
        PlusMeansAware(u);
        FromIsoFormat(u)
      else
        PlusMeansAware(s);
        FromIsoFormat(s)
    else if EndsWith(s, "00") then
      var u := s[..|s| - 2] + "+00:00";
      assert u[|s| - 2] == '+';
      PlusMeansAware(u);
      FromIsoFormat(u)
    else
      match Parse(s, SpaceSeconds)
      case Ok(dt) => Ok(dt.(offset := Some(0)))
      case Err(e) => Err(e)
  }

  /** The text of a time stamp in the form `YYYY-MM-DD HH:MM:SS[.ffffff]+00`. */
  function UtcText(dt: DateTime): string
    requires Valid(dt)
  {
    DateText(dt) + " " + TimeText(dt) + FractionText(dt.microsecond) + "+00"
  }

  /** A text with a `+` that ends in `+00` goes to `fromisoformat` with `+00:00`. */
  lemma CommitPlusZero(s: string, head: string)
    requires s == head + "+00"
    ensures ParseCommitTime(s) == FromIsoFormat(head + "+00:00")
  {
    assert s[|s| - 3] == '+';
    assert s[|s| - 3..] == "+00" && s[..|s| - 3] == head;
  }

  /** A text with a `+` that does not end in `+00` goes to `fromisoformat` as it is. */
  lemma CommitPlusOther(s: string, i: nat)
    requires i < |s| && s[i] == '+' && !EndsWith(s, "+00")
    ensures ParseCommitTime(s) == FromIsoFormat(s)
  {
  }

  /** `isoformat(' ')` of a value labelled UTC is its `+00` form widened to `+00:00`. */
  lemma UtcTextIso(dt: DateTime)
    requires Valid(dt)
    ensures DateText(dt) + " " + TimeText(dt) + FractionText(dt.microsecond) + "+00:00" == IsoTextSep(dt.(offset := Some(0)), ' ')
  {
    UtcOffsetText();
  }

  /** The form the docstring names, `2024-05-26 21:01:08+00`, reads as that instant in UTC. */
  lemma CommitUtcText(dt: DateTime)
    requires Valid(dt)
    ensures ParseCommitTime(UtcText(dt)) == Ok(dt.(offset := Some(0)))
  {
    var head := DateText(dt) + " " + TimeText(dt) + FractionText(dt.microsecond);
    CommitPlusZero(UtcText(dt), head);
    UtcTextIso(dt);
    IsoSepRoundTrip(dt.(offset := Some(0)), ' ');
  }

  /** `str(dt)` of an aware value east of UTC (or on it) reads back as that value. */
  lemma CommitStrEast(dt: DateTime)
    requires Valid(dt) && dt.offset.Some? && dt.offset.value >= 0 && dt.offset.value % 60 == 0
    ensures ParseCommitTime(IsoTextSep(dt, ' ')) == Ok(dt)
  {
    var s := IsoTextSep(dt, ' ');
    var clock := TimeText(dt) + FractionText(dt.microsecond);
    var off := OffsetText(dt.offset);
    assert |off| == 6 && off[0] == '+' && off[3] == ':' by {
      PadLength(dt.offset.value / 3600, 2);
      PadLength(dt.offset.value % 3600 / 60, 2);
    }
    assert s == DateText(dt) + " " + clock + off;
    assert s[|s| - 6] == '+' && s[|s| - 3] == ':';
    CommitPlusOther(s, |s| - 6);
    IsoSepRoundTrip(dt, ' ');
  }

  /** The clock text `isoformat` writes holds only digits, `:` and `.`. */
  lemma ClockChars(dt: DateTime)
    requires Valid(dt)
    ensures var t := TimeText(dt) + FractionText(dt.microsecond);
      forall j :: 0 <= j < |t| ==> IsDigit(t[j]) || t[j] == ':' || t[j] == '.'
  {
    ClockLayout(dt);
    PadTwo(dt.hour);
    PadTwo(dt.minute);
    PadTwo(dt.second);
    PadDigits(dt.microsecond, 6);
    var t := TimeText(dt) + FractionText(dt.microsecond);
    forall j | 0 <= j < |t|
      ensures IsDigit(t[j]) || t[j] == ':' || t[j] == '.'
    {
      if j < 2 { assert t[0..2][j] == t[j]; }
      else if 2 < j < 5 { assert t[3..5][j - 3] == t[j]; }
      else if 5 < j < 8 { assert t[6..8][j - 6] == t[j]; }
      else if 8 < j { assert t[9..][j - 9] == t[j]; }
    }
  }

  /**
   * `str(dt)` of a naive value whose seconds are `00` has no `+` and ends in
   * `00`, so its seconds are overwritten by `+00:00` and `fromisoformat`
   * refuses the result: the record cannot be read.
   */
  lemma CommitNaiveWholeMinute(dt: DateTime)
    requires Valid(dt) && Naive(dt) && dt.second == 0 && dt.microsecond == 0
    ensures ParseCommitTime(IsoTextSep(dt, ' ')).Err?
  {
    NaiveText(dt);
    NoPlusWest(dt);
    CommitNoPlusZero(IsoTextSep(dt, ' '), DateText(dt) + " " + MinuteClock(dt));
    NaiveRefused(dt);
  }

  /** `HH:MM:`, the clock of `str(dt)` without its seconds digits. */
  function MinuteClock(dt: DateTime): string
    requires Valid(dt)
  {
    Pad(dt.hour, 2) + ":" + Pad(dt.minute, 2) + ":"
  }

  lemma NaiveText(dt: DateTime)
    requires Valid(dt) && Naive(dt) && dt.second == 0 && dt.microsecond == 0
    ensures TimeText(dt) == MinuteClock(dt) + "00"
    ensures IsoTextSep(dt, ' ') == DateText(dt) + " " + MinuteClock(dt) + "00"
  {
    assert Pad(0, 2) == "00" by { PadExamples(); }
    assert TimeText(dt) == MinuteClock(dt) + "00";
  }

  /** `fromisoformat` refuses a clock text with no seconds digits after its second colon. */
  lemma NaiveRefused(dt: DateTime)
    requires Valid(dt) && Naive(dt) && dt.second == 0 && dt.microsecond == 0
    ensures FromIsoFormat(DateText(dt) + " " + MinuteClock(dt) + "+00:00").Err?
  {
    var clock := MinuteClock(dt);
    var off := "+00:00";
    var u := DateText(dt) + " " + clock + off;
    assert |u| >= 11 && u[0..10] == DateText(dt) && u[10] == ' ' && u[11..] == clock + off by {
      DateTextFields(dt);
      assert u == DateText(dt) + [' '] + (clock + off);
      TenThenRest(DateText(dt), ' ', clock + off);
    }
    assert DateSyntax(u) by { DateRoundTrip(u, dt); }
    assert |clock| == 6 by { PadLength(dt.hour, 2); PadLength(dt.minute, 2); }
    assert SignIndex(clock + off) == |clock| by {
      MinuteClockNoSign(dt);
      SignIndexAt(clock, off);
    }
    FromIsoShortClock(u, clock, off);
  }

  lemma MinuteClockNoSign(dt: DateTime)
    requires Valid(dt)
    ensures forall j :: 0 <= j < |MinuteClock(dt)| ==> !IsSign(MinuteClock(dt)[j])
  {
    var h := Pad(dt.hour, 2);
    var m := Pad(dt.minute, 2);
    PadTwo(dt.hour);
    PadTwo(dt.minute);
    assert MinuteClock(dt) == [h[0], h[1], ':', m[0], m[1], ':'];
  }

  /** `fromisoformat` refuses a time part whose text before the sign is no clock. */
  lemma FromIsoShortClock(u: string, clock: string, off: string)
    requires DateSyntax(u) && |u| >= 11 && u[10] == ' ' && u[11..] == clock + off
    requires SignIndex(clock + off) == |clock| && |clock| == 6
    ensures FromIsoFormat(u).Err?
  {
    assert (clock + off)[..|clock|] == clock;
  }

  /** `str(dt)` of a value that is naive or west of UTC holds no `+`. */
  lemma NoPlusWest(dt: DateTime)
    requires Valid(dt) && (dt.offset.Some? ==> dt.offset.value < 0)
    ensures '+' !in IsoTextSep(dt, ' ')
  {
    var s := IsoTextSep(dt, ' ');
    var clock := TimeText(dt) + FractionText(dt.microsecond);
    var off := OffsetText(dt.offset);
    IsoLayout(dt, ' ');
    DateRoundTrip(s, dt);
    DateChars(s);
    ClockChars(dt);
    assert '+' !in off by {
      if dt.offset.Some? {
        var a := Abs(dt.offset.value);
        PadDigits(a / 3600, 2);
        PadDigits(a % 3600 / 60, 2);
        PadDigits(a % 60, 2);
      }
    }
    assert s[11..] == clock + off;
    forall j | 0 <= j < |s| ensures s[j] != '+' {
      if j >= 11 {
        assert s[11..][j - 11] == s[j];
      }
    }
  }

  /** `fromisoformat` refuses a clock followed by a sign and anything but five more characters. */
  lemma FromIsoBadOffset(u: string, clock: string, off: string)
    requires DateSyntax(u) && |u| >= 11 && u[10] == ' ' && u[11..] == clock + off
    requires SignIndex(clock + off) == |clock| && ParseClock(clock).Some? && off != [] && |off| != 6
    ensures FromIsoFormat(u).Err?
  {
    assert (clock + off)[..|clock|] == clock;
    assert (clock + off)[|clock|..] == off;
  }

  /** A text without `+` that ends in `00` has those characters replaced by `+00:00`. */
  lemma CommitNoPlusZero(s: string, head: string)
    requires '+' !in s && s == head + "00"
    ensures ParseCommitTime(s) == FromIsoFormat(head + "+00:00")
  {
    assert s[|s| - 2..] == "00" && s[..|s| - 2] == head;
  }

  /** The offset text of a value west of UTC by whole hours. */
  lemma WestOffsetText(v: int)
    requires v < 0 && v % 3600 == 0 && ValidOffset(v)
    ensures OffsetText(Some(v)) == "-" + Pad(Abs(v) / 3600, 2) + ":00"
  {
    var a := Abs(v);
    assert a % 3600 == 0 && a % 60 == 0 by {
      assert a == -v;
      assert a == (a / 3600) * 3600;
    }
    assert Pad(0, 2) == "00" by { PadExamples(); }
  }

  /** Everything of `str(dt)` but the last two characters, for a value west of UTC by whole hours. */
  function WestHead(dt: DateTime): string
    requires Valid(dt) && dt.offset.Some?
  {
    DateText(dt) + " " + (TimeText(dt) + FractionText(dt.microsecond)) + ("-" + Pad(Abs(dt.offset.value) / 3600, 2) + ":")
  }

  lemma WestText(dt: DateTime)
    requires Valid(dt) && dt.offset.Some? && dt.offset.value < 0 && dt.offset.value % 3600 == 0
    ensures IsoTextSep(dt, ' ') == WestHead(dt) + "00"
  {
    WestOffsetText(dt.offset.value);
  }

  lemma WestRefused(dt: DateTime)
    requires Valid(dt) && dt.offset.Some?
    ensures FromIsoFormat(WestHead(dt) + "+00:00").Err?
  {
    var clock := TimeText(dt) + FractionText(dt.microsecond);
    var off := "-" + Pad(Abs(dt.offset.value) / 3600, 2) + ":+00:00";
    var u := WestHead(dt) + "+00:00";
    assert |u| >= 11 && u[0..10] == DateText(dt) && u[10] == ' ' && u[11..] == clock + off by {
      DateTextFields(dt);
      assert u == DateText(dt) + [' '] + (clock + off);
      TenThenRest(DateText(dt), ' ', clock + off);
    }
    assert DateSyntax(u) by { DateRoundTrip(u, dt); }
    assert |off| == 10 by { PadLength(Abs(dt.offset.value) / 3600, 2); }
    assert SignIndex(clock + off) == |clock| by {
      ClockChars(dt);
      SignIndexAt(clock, off);
    }
    assert ParseClock(clock).Some? by { ClockRoundTrip(dt); }
    FromIsoBadOffset(u, clock, off);
  }

  /**
   * `str(dt)` of a value west of UTC by whole hours, `...-05:00`, has no `+`
   * and ends in `00`, so its offset minutes are overwritten by `+00:00` and
   * `fromisoformat` refuses the result: the record cannot be read.
   */
  lemma CommitStrWestWholeHour(dt: DateTime)
    requires Valid(dt) && dt.offset.Some? && dt.offset.value < 0 && dt.offset.value % 3600 == 0
    ensures ParseCommitTime(IsoTextSep(dt, ' ')).Err?
  {
    WestText(dt);
    NoPlusWest(dt);
    CommitNoPlusZero(IsoTextSep(dt, ' '), WestHead(dt));
    WestRefused(dt);
  }

  // ---------------------------------------------------------------------------
  // The distance between a disclosure and its fix
  // ---------------------------------------------------------------------------

  /**
   * `calculate_time_diff`, in microseconds: the commit time minus the
   * disclosure time. It fails when either text cannot be read, and when the
   * disclosure reads as a naive value, since an aware value cannot be
   * subtracted from a naive one.
   */
  function CalculateTimeDiff(cveTime: string, commitTime: string): (r: Result<int>)
    ensures r.Ok? <==>
      ParseCveTime(cveTime).Ok? && ParseCommitTime(commitTime).Ok? && !Naive(ParseCveTime(cveTime).value)
  {
    match ParseCveTime(cveTime)
    case Err(e) => Err(e)
    case Ok(cve) =>
      match ParseCommitTime(commitTime)
      case Err(e) => Err(e)
      case Ok(commit) => Subtract(commit, cve)
  }

  /**
   * The distance is positive exactly when the commit is later than the
   * disclosure, and zero exactly when the two denote the same instant.
   */
  lemma TimeDiffSign(cveTime: string, commitTime: string)
    requires CalculateTimeDiff(cveTime, commitTime).Ok?
    ensures var cve := ParseCveTime(cveTime).value;
      var commit := ParseCommitTime(commitTime).value;
      var d := CalculateTimeDiff(cveTime, commitTime).value;
      LessEq(cve, commit).Ok? && LessEq(commit, cve).Ok?
      && (d > 0 <==> !LessEq(commit, cve).value)
      && (d == 0 <==> LessEq(cve, commit).value && LessEq(commit, cve).value)
      && d == UtcMicros(commit) - UtcMicros(cve)
  {
    var cve := ParseCveTime(cveTime).value;
    var commit := ParseCommitTime(commitTime).value;
    LessEqSubtract(commit, cve);
    LessEqSubtract(cve, commit);
  }

  /** The documented pair of samples: CVE and commit at the same minute are zero apart. */
  lemma TimeDiffExample(cveTime: string, dt: DateTime)
    requires cveTime == "2020-12-11T19:15Z" && dt == DateTime(2020, 12, 11, 19, 15, 0, 0, None)
    ensures CalculateTimeDiff(cveTime, UtcText(dt)) == Ok(0)
  {
    CveTimeExample(cveTime);
    CommitUtcText(dt);
  }

  // ---------------------------------------------------------------------------
  // The analyser
  // ---------------------------------------------------------------------------

  /**
   * A row of the `fixes` query as `analyze` uses it; `committerDate` is the
   * text `str()` gives for the stored value.
   */
  datatype Fix = Fix(cveId: string, publishedDate: string, committerDate: string, score: int)

  /** The distance of one row, or why it cannot be read. */
  function Reading(f: Fix): Result<int>
  {
    CalculateTimeDiff(f.publishedDate, f.committerDate)
  }

  /** The reading of each row by `read`. */
  function Readings(fixes: seq<Fix>, read: Fix -> Result<int>): (rs: seq<Result<int>>)
    ensures |rs| == |fixes| && forall i :: 0 <= i < |fixes| ==> rs[i] == read(fixes[i])
  {
    if fixes == [] then [] else Readings(fixes[..|fixes| - 1], read) + [read(fixes[|fixes| - 1])]
  }

  /** The values of the successful readings, in order. */
  function Readable(rs: seq<Result<int>>): (ds: seq<int>)
    ensures |ds| <= |rs|
  {
    if rs == [] then []
    else
      var init := Readable(rs[..|rs| - 1]);
      match rs[|rs| - 1]
      case Ok(d) => init + [d]
      case Err(_) => init
  }

  /** How many distances are negative. */
  function CountNegative(ds: seq<int>): (n: nat)
    ensures n <= |ds|
  {
    if ds == [] then 0 else CountNegative(ds[..|ds| - 1]) + (if ds[|ds| - 1] < 0 then 1 else 0)
  }

  /** Nothing is dropped exactly when every reading succeeds. */
  lemma ReadableStep(rs: seq<Result<int>>, i: nat)
    requires i < |rs|
    ensures Readable(rs[..i + 1]) == if rs[i].Ok? then Readable(rs[..i]) + [rs[i].value] else Readable(rs[..i])
  {
    assert rs[..i + 1][..i] == rs[..i];
  }

  lemma CountNegativeSnoc(ds: seq<int>, d: int)
    ensures CountNegative(ds + [d]) == CountNegative(ds) + (if d < 0 then 1 else 0)
  {
    assert (ds + [d])[..|ds|] == ds;
  }

  lemma {:induction false} ReadableAll(rs: seq<Result<int>>)
    ensures |Readable(rs)| == |rs| <==> forall i :: 0 <= i < |rs| ==> rs[i].Ok?
  {
    if rs != [] {
      var init := rs[..|rs| - 1];
      ReadableAll(init);
      assert forall i :: 0 <= i < |init| ==> init[i] == rs[i];
    }
  }

  /** Every kept distance is the value of some successful reading. */
  lemma {:induction false} ReadableFrom(rs: seq<Result<int>>)
    ensures forall k :: 0 <= k < |Readable(rs)| ==> Ok(Readable(rs)[k]) in rs
  {
    if rs != [] {
      var init := rs[..|rs| - 1];
      ReadableFrom(init);
      assert forall x :: x in init ==> x in rs;
    }
  }

  /** Every successful reading is kept. */
  lemma {:induction false} ReadableHas(rs: seq<Result<int>>)
    ensures forall i :: 0 <= i < |rs| && rs[i].Ok? ==> rs[i].value in Readable(rs)
  {
    if rs != [] {
      var init := rs[..|rs| - 1];
      ReadableHas(init);
      assert forall i :: 0 <= i < |init| ==> init[i] == rs[i];
    }
  }

  // ---------------------------------------------------------------------------
  // The statistics
  // ---------------------------------------------------------------------------

  /** `[abs(d) for d in ds]`. */
  function AbsAll(ds: seq<int>): (r: seq<nat>)
    ensures |r| == |ds|
  {
    seq(|ds|, i requires 0 <= i < |ds| => Abs(ds[i]))
  }

  predicate Ascending(s: seq<nat>)
  {
    forall i, j :: 0 <= i < j < |s| ==> s[i] <= s[j]
  }

  /** `x` placed before the first element of `s` that is not smaller. */
  function Insert(x: nat, s: seq<nat>): seq<nat>
  {
    if s == [] then [x]
    else if x <= s[0] then [x] + s
    else [s[0]] + Insert(x, s[1..])
  }

  lemma ConsAscending(a: nat, t: seq<nat>)
    requires Ascending(t) && forall k :: 0 <= k < |t| ==> a <= t[k]
    ensures Ascending([a] + t)
  {
    var u := [a] + t;
    forall i, j | 0 <= i < j < |u|
      ensures u[i] <= u[j]
    {
      assert u[j] == t[j - 1];
      if i > 0 { assert u[i] == t[i - 1]; }
    }
  }

  /** Inserting into an ascending sequence keeps it ascending and adds exactly `x`. */
  lemma {:induction false} InsertAscending(x: nat, s: seq<nat>)
    requires Ascending(s)
    ensures Ascending(Insert(x, s)) && multiset(Insert(x, s)) == multiset(s) + multiset{x}
  {
    if s == [] {
    } else if x <= s[0] {
      ConsAscending(x, s);
    } else {
      InsertAscending(x, s[1..]);
      InsertBehind(x, s, Insert(x, s[1..]));
    }
  }

  /** The step of `InsertAscending` past a smaller head, given the result for the tail. */
  lemma InsertBehind(x: nat, s: seq<nat>, t: seq<nat>)
    requires Ascending(s) && s != [] && s[0] < x
    requires Ascending(t) && multiset(t) == multiset(s[1..]) + multiset{x}
    ensures Ascending([s[0]] + t) && multiset([s[0]] + t) == multiset(s) + multiset{x}
  {
    assert s == [s[0]] + s[1..];
    assert forall k :: 0 <= k < |s[1..]| ==> s[0] <= s[1..][k] by {
      forall k | 0 <= k < |s[1..]| ensures s[0] <= s[1..][k] { assert s[1..][k] == s[k + 1]; }
    }
    LowerBoundPermuted(s[0], s[1..], x, t);
    ConsAscending(s[0], t);
  }

  /** A lower bound of `u` and of `x` bounds every element of a rearrangement of `u` and `x`. */
  lemma LowerBoundPermuted(a: nat, u: seq<nat>, x: nat, t: seq<nat>)
    requires forall k :: 0 <= k < |u| ==> a <= u[k]
    requires a <= x && multiset(t) == multiset(u) + multiset{x}
    ensures forall k :: 0 <= k < |t| ==> a <= t[k]
  {
    forall k | 0 <= k < |t|
      ensures a <= t[k]
    {
      assert t[k] in multiset(t);
      if t[k] != x {
        assert t[k] in multiset(u);
        var i :| 0 <= i < |u| && u[i] == t[k];
      }
    }
  }

  /** `sorted(s)`: ascending, and a permutation of `s`. */
  function Sort(s: seq<nat>): (r: seq<nat>)
    ensures Ascending(r) && multiset(r) == multiset(s) && |r| == |s|
  {
    if s == [] then []
    else
      assert s == s[..|s| - 1] + [s[|s| - 1]];
      var init := Sort(s[..|s| - 1]);
      InsertAscending(s[|s| - 1], init);
      Insert(s[|s| - 1], init)
  }

  /** The first and last of the sorted values are the source's `min` and `max`. */
  lemma SortEnds(s: seq<nat>)
    requires s != []
    ensures var r := Sort(s);
      r[0] in s && r[|r| - 1] in s && forall x :: x in s ==> r[0] <= x <= r[|r| - 1]
  {
    var r := Sort(s);
    AscendingEnds(r, s);
  }

  lemma AscendingEnds(r: seq<nat>, s: seq<nat>)
    requires r != [] && Ascending(r) && multiset(r) == multiset(s)
    ensures r[0] in s && r[|r| - 1] in s && forall x :: x in s ==> r[0] <= x <= r[|r| - 1]
  {
    assert r[0] in multiset(r) && r[|r| - 1] in multiset(r);
    forall x | x in s
      ensures r[0] <= x <= r[|r| - 1]
    {
      assert x in multiset(r);
      var i :| 0 <= i < |r| && r[i] == x;
    }
  }

  /** The percentiles `_print_statistics` reports. */
  const Percentiles: seq<nat> := [50, 75, 90, 95, 99]

  /**
   * `int(n * p / 100)`, moved back to `n - 1` when it falls off the end: a
   * valid index, and below 100 the rank that has `p` per cent of the values
   * before it.
   */
  function PercentileIndex(n: nat, p: nat): (k: nat)
    requires n > 0
    ensures k < n
    ensures p < 100 ==> k * 100 <= n * p < (k + 1) * 100
    ensures p >= 100 ==> k == n - 1
  {
    var idx := n * p / 100;
    if idx >= n then n - 1 else idx
  }

  /** A higher percentile never picks an earlier rank. */
  lemma PercentileMonotone(n: nat, p: nat, q: nat)
    requires n > 0 && p <= q
    ensures PercentileIndex(n, p) <= PercentileIndex(n, q)
  {
    assert n * p <= n * q by { MulLe(n, p, q); }
  }

  lemma MulLe(n: nat, p: nat, q: nat)
    requires p <= q
    ensures n * p <= n * q
  {
    assert n * q == n * p + n * (q - p);
  }

  /** The value at percentile `p` of an ascending sequence. */
  function Percentile(sorted: seq<nat>, p: nat): nat
    requires sorted != []
  {
    sorted[PercentileIndex(|sorted|, p)]
  }

  /** Over ascending values the reported percentiles ascend. */
  lemma PercentilesAscend(sorted: seq<nat>, p: nat, q: nat)
    requires sorted != [] && Ascending(sorted) && p <= q
    ensures Percentile(sorted, p) <= Percentile(sorted, q)
  {
    PercentileMonotone(|sorted|, p, q);
  }

  /** Histogram row: days from `lo` up to, not including, `hi` (no bound for `None`). */
  datatype Bucket = Bucket(lo: nat, hi: Option<nat>)

  /** The `ranges` table of `_print_statistics`. */
  const Buckets: seq<Bucket> :=
    [Bucket(0, Some(7)), Bucket(7, Some(30)), Bucket(30, Some(90)),
     Bucket(90, Some(180)), Bucket(180, Some(365)), Bucket(365, None)]

  /** `min_days <= d < max_days`, with `d` in microseconds. */
  predicate InBucket(x: nat, b: Bucket)
  {
    b.lo * MicrosPerDay <= x && (b.hi.None? || x < b.hi.value * MicrosPerDay)
  }

  /** The row a distance falls in: the rows are disjoint and cover every distance. */
  function BucketOf(x: nat): (j: nat)
    ensures j < |Buckets| && InBucket(x, Buckets[j])
    ensures forall k :: 0 <= k < |Buckets| && InBucket(x, Buckets[k]) ==> k == j
  {
    if x < 7 * MicrosPerDay then 0
    else if x < 30 * MicrosPerDay then 1
    else if x < 90 * MicrosPerDay then 2
    else if x < 180 * MicrosPerDay then 3
    else if x < 365 * MicrosPerDay then 4
    else 5
  }

  /** `sum(1 for d in xs if min_days <= d < max_days)`. */
  function CountIn(xs: seq<nat>, b: Bucket): (c: nat)
    ensures c <= |xs|
  {
    if xs == [] then 0 else CountIn(xs[..|xs| - 1], b) + (if InBucket(xs[|xs| - 1], b) then 1 else 0)
  }

  /** The count of each row of the table. */
  function Histogram(xs: seq<nat>): (h: seq<nat>)
    ensures |h| == |Buckets| && forall j :: 0 <= j < |Buckets| ==> h[j] == CountIn(xs, Buckets[j])
  {
    seq(|Buckets|, j requires 0 <= j < |Buckets| => CountIn(xs, Buckets[j]))
  }

  function Total(cs: seq<nat>): nat
  {
    if cs == [] then 0 else cs[0] + Total(cs[1..])
  }

  lemma {:induction false} TotalBump(cs: seq<nat>, j: nat)
    requires j < |cs|
    ensures Total(cs[j := cs[j] + 1]) == Total(cs) + 1
  {
    if j > 0 {
      assert cs[j := cs[j] + 1][1..] == cs[1..][j - 1 := cs[1..][j - 1] + 1];
      TotalBump(cs[1..], j - 1);
    }
  }

  lemma {:induction false} TotalZeros(cs: seq<nat>)
    requires forall i :: 0 <= i < |cs| ==> cs[i] == 0
    ensures Total(cs) == 0
  {
    if cs != [] {
      TotalZeros(cs[1..]);
    }
  }

  /** Every distance is counted in exactly one row, so the counts add up to the sample size. */
  lemma {:induction false} HistogramTotal(xs: seq<nat>)
    ensures Total(Histogram(xs)) == |xs|
  {
    if xs == [] {
      TotalZeros(Histogram(xs));
    } else {
      var init := xs[..|xs| - 1];
      var x := xs[|xs| - 1];
      var j := BucketOf(x);
      HistogramTotal(init);
      var h := Histogram(init);
      assert Histogram(xs) == h[j := h[j] + 1];
      TotalBump(h, j);
    }
  }

  /** The per-row counts of the distribution table, row by row. */
  method CountBuckets(xs: seq<nat>) returns (counts: seq<nat>)
    ensures counts == Histogram(xs)
  {
    counts := [];
    var j := 0;
    while j < |Buckets|
      invariant 0 <= j <= |Buckets| && |counts| == j
      invariant forall k :: 0 <= k < j ==> counts[k] == CountIn(xs, Buckets[k])
    {
      var b := Buckets[j];
      var c := 0;
      var i := 0;
      while i < |xs|
        invariant 0 <= i <= |xs| && c == CountIn(xs[..i], b)
      {
        assert xs[..i + 1][..i] == xs[..i];
        if b.lo * MicrosPerDay <= xs[i] && (b.hi.None? || xs[i] < b.hi.value * MicrosPerDay) {
          c := c + 1;
        }
        i := i + 1;
      }
      assert xs[..|xs|] == xs;
      counts := counts + [c];
      j := j + 1;
    }
  }

  /** The value at each of `Percentiles`, with the index clamped as the source does. */
  method PercentileValues(sorted: seq<nat>) returns (vs: seq<nat>)
    requires sorted != []
    ensures |vs| == |Percentiles|
    ensures forall j :: 0 <= j < |Percentiles| ==> vs[j] == Percentile(sorted, Percentiles[j])
  {
    vs := [];
    var j := 0;
    while j < |Percentiles|
      invariant 0 <= j <= |Percentiles| && |vs| == j
      invariant forall k :: 0 <= k < j ==> vs[k] == Percentile(sorted, Percentiles[k])
    {
      var idx := |sorted| * Percentiles[j] / 100;
      if idx >= |sorted| {
        idx := |sorted| - 1;
      }
      vs := vs + [sorted[idx]];
      j := j + 1;
    }
  }

  /** What `_print_statistics` derives from the distances, in microseconds. */
  datatype Report = Report(
    total: nat, before: nat, after: nat,
    minimum: nat, maximum: nat,
    percentiles: seq<nat>, histogram: seq<nat>, recommended: seq<nat>)

  /**
   * `r` is the report for the distances `ds` and the two counters: nothing
   * when there are no distances; otherwise the sample size, the counters, the
   * extremes of the absolute distances, their value at each percentile, the
   * distribution table and the 75th, 90th and 95th percentiles the
   * recommendation quotes.
   */
  predicate Describes(r: Option<Report>, ds: seq<int>, before: nat, after: nat)
  {
    (r.None? <==> ds == [])
    && (r.Some? ==>
      var a := AbsAll(ds);
      var sorted := Sort(a);
      r.value.total == |ds| && r.value.before == before && r.value.after == after
      && r.value.minimum in a && r.value.maximum in a
      && (forall x :: x in a ==> r.value.minimum <= x <= r.value.maximum)
      && |r.value.percentiles| == |Percentiles|
      && (forall j :: 0 <= j < |Percentiles| ==> r.value.percentiles[j] == Percentile(sorted, Percentiles[j]))
      && r.value.histogram == Histogram(a)
      && r.value.recommended == [Percentile(sorted, 75), Percentile(sorted, 90), Percentile(sorted, 95)])
  }

  /** The distribution table of a report counts every sample once. */
  lemma ReportTotal(r: Option<Report>, ds: seq<int>, before: nat, after: nat)
    requires Describes(r, ds, before, after) && r.Some?
    ensures Total(r.value.histogram) == r.value.total
  {
    HistogramTotal(AbsAll(ds));
  }

  /** The reported percentiles, and the recommended ones, never decrease. */
  lemma ReportAscending(r: Option<Report>, ds: seq<int>, before: nat, after: nat)
    requires Describes(r, ds, before, after) && r.Some?
    ensures forall j, k :: 0 <= j < k < |Percentiles| ==> r.value.percentiles[j] <= r.value.percentiles[k]
    ensures r.value.recommended[0] <= r.value.recommended[1] <= r.value.recommended[2]
  {
    var sorted := Sort(AbsAll(ds));
    forall j, k | 0 <= j < k < |Percentiles|
      ensures r.value.percentiles[j] <= r.value.percentiles[k]
    {
      PercentilesAscend(sorted, Percentiles[j], Percentiles[k]);
    }
    PercentilesAscend(sorted, 75, 90);
    PercentilesAscend(sorted, 90, 95);
  }

  /** The counters of `analyze` and its distances. */
  class TimeWindowAnalyzer {

    /** `self.time_diffs`, in microseconds. */
    var timeDiffs: seq<int>

    constructor()
      ensures timeDiffs == []
    {
      timeDiffs := [];
    }

    /**
     * `analyze` over the rows the query returned. With no rows it leaves the
     * distances as they were and reports nothing; otherwise it collects the
     * distances and reports on them.
     */
    method Analyze(fixes: seq<Fix>) returns (before: nat, after: nat, report: Option<Report>)
      modifies this
      ensures fixes == [] ==> timeDiffs == old(timeDiffs) && before == 0 && after == 0 && report == None
      ensures fixes != [] ==> timeDiffs == Readable(Readings(fixes, Reading))
      ensures fixes != [] ==> before == CountNegative(timeDiffs) && before + after == |timeDiffs|
      ensures fixes != [] ==> Describes(report, timeDiffs, before, after)
    {
      if fixes == [] {
        return 0, 0, None;
      }
      before, after := CollectDiffs(Readings(fixes, Reading));
      report := Statistics(before, after);
    }

    /**
     * The loop of `analyze`, given the reading of each row: the distances
     * become those of the readable rows, in order, and the rows that cannot
     * be read are skipped; `before` counts the negative distances and
     * `after` the rest.
     */
    method CollectDiffs(readings: seq<Result<int>>) returns (before: nat, after: nat)
      modifies this
      ensures timeDiffs == Readable(readings)
      ensures before == CountNegative(timeDiffs) && before + after == |timeDiffs|
    {
      var diffs: seq<int> := [];
      before, after := 0, 0;
      var i := 0;
      while i < |readings|
        invariant 0 <= i <= |readings|
        invariant diffs == Readable(readings[..i])
        invariant before == CountNegative(diffs) && before + after == |diffs|
      {
        var diff := readings[i];
        ReadableStep(readings, i);
        if diff.Ok? {
          CountNegativeSnoc(diffs, diff.value);
          diffs := diffs + [diff.value];
          assert diffs == Readable(readings[..i + 1]);
          if diff.value < 0 {
            before := before + 1;
          } else {
            after := after + 1;
          }
        }
        i := i + 1;
      }
      assert readings[..|readings|] == readings;
      timeDiffs := diffs;
    }

    /** The numbers `_print_statistics` prints, for the current distances. */
    method Statistics(before: nat, after: nat) returns (r: Option<Report>)
      ensures Describes(r, timeDiffs, before, after)
    {
      if timeDiffs == [] {
        return None;
      }
      var n := |timeDiffs|;
      var a := AbsAll(timeDiffs);
      var sorted := Sort(a);
      SortEnds(a);
      var ps := PercentileValues(sorted);
      var hist := CountBuckets(a);
      var p75 := sorted[n * 75 / 100];
      var p90 := sorted[n * 90 / 100];
      var p95 := sorted[n * 95 / 100];
      assert n * 75 / 100 == PercentileIndex(n, 75);
      assert n * 90 / 100 == PercentileIndex(n, 90);
      assert n * 95 / 100 == PercentileIndex(n, 95);
      r := Some(Report(n, before, after, sorted[0], sorted[n - 1], ps, hist, [p75, p90, p95]));
    }
  }
}
