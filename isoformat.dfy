/**
 * `datetime.fromisoformat` for the strings the modelled code hands it:
 * `YYYY-MM-DD`, optionally followed by `T` or a space, `HH:MM`, optional
 * `:SS` with an optional fraction of one to six digits, and an optional
 * UTC offset `+HH:MM` or `-HH:MM`. Everything else is rejected.
 */
module IsoFormat {

  import opened Wrappers
  import opened Text
  import opened Calendar

  const IsoError := "Invalid isoformat string"

  function Abs(v: int): nat { if v < 0 then -v else v }

  /** `YYYY-MM-DD` at the start of `s`; the ranges are checked later. */
  predicate DateSyntax(s: string)
  {
    |s| >= 10 && AllDigits(s[0..4]) && s[4] == '-' && AllDigits(s[5..7]) && s[7] == '-' && AllDigits(s[8..10])
  }

  /** The clock fields of the time part. */
  datatype Clock = Clock(hour: nat, minute: nat, second: nat, micro: nat)

  /**
   * `HH:MM`, `HH:MM:SS` or `HH:MM:SS.` followed by one to six digits, the
   * fraction read as microseconds after right-padding it with zeros.
   */
  function ParseClock(t: string): (r: Option<Clock>)
    ensures r.Some? ==> |t| == 5 || |t| == 8 || 10 <= |t| <= 15
  {
    if |t| < 5 || !AllDigits(t[0..2]) || t[2] != ':' || !AllDigits(t[3..5]) then None
    else
      var h := DigitsValue(t[0..2]);
      var m := DigitsValue(t[3..5]);
      if |t| == 5 then Some(Clock(h, m, 0, 0))
      else if |t| < 8 || t[5] != ':' || !AllDigits(t[6..8]) then None
      else
        var sec := DigitsValue(t[6..8]);
        if |t| == 8 then Some(Clock(h, m, sec, 0))
        else if t[8] != '.' || |t| < 10 || |t| > 15 || !AllDigits(t[9..]) then None
        else Some(Clock(h, m, sec, DigitsValue(t[9..]) * Power10(15 - |t|)))
  }

  predicate IsSign(c: char) { c == '+' || c == '-' }

  /** Where the offset starts: the first `+` or `-`, or the end of `t`. */
  function SignIndex(t: string): (k: nat)
    ensures k <= |t|
    ensures forall j :: 0 <= j < k ==> !IsSign(t[j])
    ensures k < |t| ==> IsSign(t[k])
  {
    if t == [] || IsSign(t[0]) then 0 else 1 + SignIndex(t[1..])
  }

  /**
   * `+HH:MM` or `-HH:MM` as seconds east of UTC. The minutes are not
   * range-checked; an offset of a day or more either way is rejected.
   */
  function ParseOffset(t: string): (r: Option<int>)
    ensures r.Some? ==> ValidOffset(r.value)
    ensures r.Some? ==> |t| == 6 && (r.value < 0 ==> t[0] == '-') && (r.value > 0 ==> t[0] == '+')
  {
    if |t| != 6 || !IsSign(t[0]) || !AllDigits(t[1..3]) || t[3] != ':' || !AllDigits(t[4..6]) then None
    else
      var magnitude := DigitsValue(t[1..3]) * 3600 + DigitsValue(t[4..6]) * 60;
      if magnitude >= SecondsPerDay then None
      else Some(if t[0] == '+' then magnitude else -magnitude)
  }

  /** The `datetime` constructor: the fields are range-checked. */
  function Build(y: int, m: int, d: int, c: Clock, offset: Option<int>): (r: Result<DateTime>)
    ensures r.Ok? <==> Valid(DateTime(y, m, d, c.hour, c.minute, c.second, c.micro, offset))
    ensures r.Ok? ==> r.value == DateTime(y, m, d, c.hour, c.minute, c.second, c.micro, offset)
  {
    var dt := DateTime(y, m, d, c.hour, c.minute, c.second, c.micro, offset);
    if Valid(dt) then Ok(dt) else Err("field out of range")
  }

  /** `datetime.fromisoformat(s)`: aware exactly when the time part carries an offset. */
  function FromIsoFormat(s: string): (r: Result<DateTime>)
    ensures r.Ok? ==> Valid(r.value) && DateSyntax(s)
    ensures r.Ok? ==>
      r.value.year == DigitsValue(s[0..4]) && r.value.month == DigitsValue(s[5..7]) && r.value.day == DigitsValue(s[8..10])
    ensures r.Ok? ==> (r.value.offset.Some? <==> exists j :: 11 <= j < |s| && IsSign(s[j]))
    ensures r.Ok? ==> |s| == 10 || s[10] == 'T' || s[10] == ' '
  {
    if !DateSyntax(s) then Err(IsoError)
    else
      var y := DigitsValue(s[0..4]);
      var m := DigitsValue(s[5..7]);
      var d := DigitsValue(s[8..10]);
      if |s| == 10 then Build(y, m, d, Clock(0, 0, 0, 0), None)
      else if s[10] != 'T' && s[10] != ' ' then Err(IsoError)
      else
        var rest := s[11..];
        var k := SignIndex(rest);
        match ParseClock(rest[..k])
        case None => Err(IsoError)
        case Some(c) =>
          if k == |rest| then
            assert forall j :: 11 <= j < |s| ==> s[j] == rest[j - 11];
            Build(y, m, d, c, None)
          else
            assert IsSign(s[11 + k]);
            match ParseOffset(rest[k..])
            case None => Err(IsoError)
            case Some(o) => Build(y, m, d, c, Some(o))
  }

  // ---------------------------------------------------------------------------
  // The printer it inverts
  // ---------------------------------------------------------------------------

  /** The `.ffffff` part `isoformat` writes when there are microseconds. */
  function FractionText(us: nat): string
  {
    if us == 0 then "" else "." + Pad(us, 6)
  }

  /** The `+HH:MM[:SS]` part `isoformat` writes for an aware value. */
  function OffsetText(offset: Option<int>): string
  {
    match offset
    case None => ""
    case Some(v) =>
      var a := Abs(v);
      (if v < 0 then "-" else "+") + Pad(a / 3600, 2) + ":" + Pad(a % 3600 / 60, 2)
      + (if a % 60 == 0 then "" else ":" + Pad(a % 60, 2))
  }

  /** The offset text of UTC. */
  lemma UtcOffsetText()
    ensures OffsetText(Some(0)) == "+00:00"
  {
    assert Pad(0, 1) == "0";
  }

  /** `dt.isoformat(sep)`; `str(dt)` is the form with a space. */
  function IsoTextSep(dt: DateTime, sep: char): string
    requires Valid(dt)
  {
    DateText(dt) + [sep] + (TimeText(dt) + FractionText(dt.microsecond) + OffsetText(dt.offset))
  }

  /** `dt.isoformat()`. */
  function IsoText(dt: DateTime): string
    requires Valid(dt)
  {
    IsoTextSep(dt, 'T')
  }

  lemma PadNoSign(n: nat, w: nat)
    ensures forall j :: 0 <= j < |Pad(n, w)| ==> IsDigit(Pad(n, w)[j])
  {
    PadDigits(n, w);
  }

  /** Where the clock fields sit in the clock text `isoformat` writes. */
  lemma ClockLayout(dt: DateTime)
    requires Valid(dt)
    ensures var t := TimeText(dt) + FractionText(dt.microsecond);
      |t| == (if dt.microsecond == 0 then 8 else 15)
      && t[0..2] == Pad(dt.hour, 2) && t[2] == ':' && t[3..5] == Pad(dt.minute, 2)
      && t[5] == ':' && t[6..8] == Pad(dt.second, 2)
      && (dt.microsecond != 0 ==> t[8] == '.' && t[9..] == Pad(dt.microsecond, 6))
  {
    TimeTextFields(dt);
    var t := TimeText(dt) + FractionText(dt.microsecond);
    assert t[0..8] == TimeText(dt);
    assert t[0..2] == t[0..8][0..2] && t[3..5] == t[0..8][3..5] && t[6..8] == t[0..8][6..8];
    if dt.microsecond != 0 {
      assert Power10(6) == 1000000;
      PadLength(dt.microsecond, 6);
      assert t[8..] == FractionText(dt.microsecond);
    }
  }

  /** The clock text `isoformat` writes reads back as the clock fields. */
  lemma ClockRoundTrip(dt: DateTime)
    requires Valid(dt)
    ensures ParseClock(TimeText(dt) + FractionText(dt.microsecond)) ==
      Some(Clock(dt.hour, dt.minute, dt.second, dt.microsecond))
  {
    ClockLayout(dt);
    PadTwo(dt.hour);
    PadTwo(dt.minute);
    PadTwo(dt.second);
    PadDigits(dt.microsecond, 6);
  }

  lemma OffsetSplit(a: nat)
    requires a % 60 == 0
    ensures a / 3600 * 3600 + a % 3600 / 60 * 60 == a
  {
  }

  /** A whole-minute offset `isoformat` writes reads back as itself. */
  lemma OffsetRoundTrip(v: int)
    requires ValidOffset(v) && v % 60 == 0
    ensures ParseOffset(OffsetText(Some(v))) == Some(v)
  {
    var a := Abs(v);
    assert a % 60 == 0;
    OffsetSplit(a);
    PadTwo(a / 3600);
    PadTwo(a % 3600 / 60);
    var t := OffsetText(Some(v));
    assert t[1..3] == Pad(a / 3600, 2) && t[4..6] == Pad(a % 3600 / 60, 2);
  }

  /** A clock text followed by an offset text: the offset starts right after the clock. */
  lemma SignIndexAt(a: string, b: string)
    requires forall j :: 0 <= j < |a| ==> !IsSign(a[j])
    requires b == [] || IsSign(b[0])
    ensures SignIndex(a + b) == |a|
  {
    assert forall j :: 0 <= j < |a| ==> !IsSign((a + b)[j]) by {
      assert forall j :: 0 <= j < |a| ==> (a + b)[j] == a[j];
    }
    assert |a| < |a + b| ==> IsSign((a + b)[|a|]);
  }

  /** The date fields `isoformat` writes read back. */
  lemma DateRoundTrip(s: string, dt: DateTime)
    requires Valid(dt) && |s| >= 10 && s[0..10] == DateText(dt)
    ensures DateSyntax(s)
    ensures DigitsValue(s[0..4]) == dt.year && DigitsValue(s[5..7]) == dt.month && DigitsValue(s[8..10]) == dt.day
  {
    DateTextFields(dt);
    PadDigits(dt.year, 4);
    PadTwo(dt.month);
    PadTwo(dt.day);
    assert s[0..4] == s[0..10][0..4] && s[5..7] == s[0..10][5..7] && s[8..10] == s[0..10][8..10];
  }

  /** The clock text holds no sign, so the offset text starts right after it. */
  lemma ClockThenOffset(dt: DateTime)
    requires Valid(dt)
    ensures var clock := TimeText(dt) + FractionText(dt.microsecond);
      SignIndex(clock + OffsetText(dt.offset)) == |clock|
  {
    var clock := TimeText(dt) + FractionText(dt.microsecond);
    ClockLayout(dt);
    PadNoSign(dt.hour, 2);
    PadNoSign(dt.minute, 2);
    PadNoSign(dt.second, 2);
    PadNoSign(dt.microsecond, 6);
    assert forall j :: 0 <= j < 2 ==> clock[j] == Pad(dt.hour, 2)[j];
    assert forall j :: 3 <= j < 5 ==> clock[j] == Pad(dt.minute, 2)[j - 3];
    assert forall j :: 6 <= j < 8 ==> clock[j] == Pad(dt.second, 2)[j - 6];
    assert dt.microsecond != 0 ==> forall j :: 9 <= j < |clock| ==> clock[j] == Pad(dt.microsecond, 6)[j - 9];
    SignIndexAt(clock, OffsetText(dt.offset));
  }

  lemma IsoLayout(dt: DateTime, sep: char)
    requires Valid(dt)
    ensures var s := IsoTextSep(dt, sep);
      |s| >= 11 && s[0..10] == DateText(dt) && s[10] == sep
      && s[11..] == TimeText(dt) + FractionText(dt.microsecond) + OffsetText(dt.offset)
  {
    DateTextFields(dt);
    var rest := TimeText(dt) + FractionText(dt.microsecond) + OffsetText(dt.offset);
    TenThenRest(DateText(dt), sep, rest);
  }

  lemma TenThenRest(d: string, sep: char, rest: string)
    requires |d| == 10
    ensures var s := d + [sep] + rest; s[0..10] == d && s[10] == sep && s[11..] == rest
  {
  }

  /** How `FromIsoFormat` reads a string whose time part is a clock text and an offset text. */
  lemma FromIsoSplit(s: string, clock: string, off: string, c: Clock, o: Option<int>)
    requires DateSyntax(s) && |s| >= 11 && (s[10] == 'T' || s[10] == ' ') && s[11..] == clock + off
    requires SignIndex(clock + off) == |clock| && ParseClock(clock) == Some(c)
    requires if off == [] then o == None else o.Some? && ParseOffset(off) == o
    ensures FromIsoFormat(s) == Build(DigitsValue(s[0..4]), DigitsValue(s[5..7]), DigitsValue(s[8..10]), c, o)
  {
    assert (clock + off)[..|clock|] == clock;
    assert (clock + off)[|clock|..] == off;
  }

  /**
   * `fromisoformat` inverts `isoformat` on every valid value whose offset,
   * if any, is a whole number of minutes.
   */
  lemma IsoRoundTrip(dt: DateTime)
    requires Valid(dt) && (dt.offset.Some? ==> dt.offset.value % 60 == 0)
    ensures FromIsoFormat(IsoText(dt)) == Ok(dt)
  {
    IsoSepRoundTrip(dt, 'T');
  }

  /** The same for the space-separated form `str(dt)`. */
  lemma IsoSepRoundTrip(dt: DateTime, sep: char)
    requires Valid(dt) && (dt.offset.Some? ==> dt.offset.value % 60 == 0) && (sep == 'T' || sep == ' ')
    ensures FromIsoFormat(IsoTextSep(dt, sep)) == Ok(dt)
  {
    var s := IsoTextSep(dt, sep);
    var clock := TimeText(dt) + FractionText(dt.microsecond);
    IsoLayout(dt, sep);
    DateRoundTrip(s, dt);
    ClockRoundTrip(dt);
    ClockThenOffset(dt);
    if dt.offset.Some? {
      OffsetRoundTrip(dt.offset.value);
    }
    FromIsoSplit(s, clock, OffsetText(dt.offset), Clock(dt.hour, dt.minute, dt.second, dt.microsecond), dt.offset);
  }
}
