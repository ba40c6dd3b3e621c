/**
 * Python `datetime` values as the modelled code uses them: the proleptic
 * Gregorian calendar, naive versus aware values, the two orderings Python
 * applies, subtraction, `relativedelta(months=n)` and one `strftime` format.
 */
module Calendar {

  import opened Wrappers
  import opened Text

  /**
   * A `datetime`. `offset` is `None` for a naive value and `Some(s)` for an
   * aware one, `s` being the UTC offset in seconds east of Greenwich.
   */
  datatype DateTime = DateTime(
    year: int, month: int, day: int,
    hour: int, minute: int, second: int, microsecond: int,
    offset: Option<int>)

  const MinYear := 1
  const MaxYear := 9999
  const SecondsPerDay := 86400
  const MicrosPerSecond := 1000000
  const MicrosPerDay := SecondsPerDay * MicrosPerSecond

  // ---------------------------------------------------------------------------
  // The Gregorian calendar
  // ---------------------------------------------------------------------------

  predicate IsLeap(y: int)
  {
    y % 4 == 0 && (y % 100 != 0 || y % 400 == 0)
  }

  /** `calendar.monthrange(y, m)[1]`. */
  function DaysInMonth(y: int, m: int): (n: int)
    requires 1 <= m <= 12
    ensures 28 <= n <= 31
    ensures n == 29 <==> m == 2 && IsLeap(y)
  {
    if m == 2 then (if IsLeap(y) then 29 else 28)
    else if m == 4 || m == 6 || m == 9 || m == 11 then 30
    else 31
  }

  predicate ValidDate(y: int, m: int, d: int)
  {
    MinYear <= y <= MaxYear && 1 <= m <= 12 && 1 <= d <= DaysInMonth(y, m)
  }

  /** `timezone(timedelta(seconds=s))` accepts strictly less than one day either way. */
  predicate ValidOffset(s: int)
  {
    -SecondsPerDay < s < SecondsPerDay
  }

  /** The field ranges the `datetime` constructor enforces. */
  predicate Valid(dt: DateTime)
  {
    ValidDate(dt.year, dt.month, dt.day)
    && 0 <= dt.hour <= 23 && 0 <= dt.minute <= 59 && 0 <= dt.second <= 59
    && 0 <= dt.microsecond < MicrosPerSecond
    && (dt.offset.Some? ==> ValidOffset(dt.offset.value))
  }

  predicate Naive(dt: DateTime) { dt.offset.None? }

  function DaysInYear(y: int): int
  {
    if IsLeap(y) then 366 else 365
  }

  /** Days in the years before `y`, counting from year 1. */
  function DaysBeforeYear(y: int): (n: nat)
    decreases y
  {
    if y <= 1 then 0 else DaysBeforeYear(y - 1) + DaysInYear(y - 1)
  }

  /** Days in the months of year `y` before month `m`. */
  function DaysBeforeMonth(y: int, m: int): (n: nat)
    requires 1 <= m <= 12
    decreases m
  {
    if m == 1 then 0 else DaysBeforeMonth(y, m - 1) + DaysInMonth(y, m - 1)
  }

  /** `date.toordinal()`: day 1 is 0001-01-01. */
  function Ordinal(y: int, m: int, d: int): int
    requires 1 <= m <= 12
  {
    DaysBeforeYear(y) + DaysBeforeMonth(y, m) + d
  }

  /** Microseconds into the day given by the clock fields. */
  function ClockMicros(dt: DateTime): int
  {
    ((dt.hour * 60 + dt.minute) * 60 + dt.second) * MicrosPerSecond + dt.microsecond
  }

  /** The wall-clock time as microseconds on one time line, ignoring `offset`. */
  function LocalMicros(dt: DateTime): int
    requires 1 <= dt.month <= 12
  {
    Ordinal(dt.year, dt.month, dt.day) * MicrosPerDay + ClockMicros(dt)
  }

  /** The instant an aware value denotes, as UTC microseconds. */
  function UtcMicros(dt: DateTime): int
    requires 1 <= dt.month <= 12 && dt.offset.Some?
  {
    LocalMicros(dt) - dt.offset.value * MicrosPerSecond
  }

  // ---------------------------------------------------------------------------
  // The calendar is a time line
  // ---------------------------------------------------------------------------

  lemma {:induction false} DaysBeforeMonthMono(y: int, m1: int, m2: int)
    requires 1 <= m1 < m2 <= 12
    ensures DaysBeforeMonth(y, m1) + DaysInMonth(y, m1) <= DaysBeforeMonth(y, m2)
    decreases m2 - m1
  {
    if m1 + 1 < m2 {
      DaysBeforeMonthMono(y, m1 + 1, m2);
    }
  }

  lemma DaysBeforeMonthYear(y: int)
    ensures DaysBeforeMonth(y, 12) + DaysInMonth(y, 12) == DaysInYear(y)
  {
  }

  lemma {:induction false} DaysBeforeYearMono(y1: int, y2: int)
    requires 1 <= y1 < y2
    ensures DaysBeforeYear(y1) + DaysInYear(y1) <= DaysBeforeYear(y2)
    decreases y2 - y1
  {
    if y1 + 1 < y2 {
      DaysBeforeYearMono(y1 + 1, y2);
    }
  }

  /** Calendar order of two valid dates, field by field. */
  predicate DateBefore(y1: int, m1: int, d1: int, y2: int, m2: int, d2: int)
  {
    y1 < y2 || (y1 == y2 && (m1 < m2 || (m1 == m2 && d1 < d2)))
  }

  /** Later dates have larger ordinals. */
  lemma OrdinalMono(y1: int, m1: int, d1: int, y2: int, m2: int, d2: int)
    requires ValidDate(y1, m1, d1) && ValidDate(y2, m2, d2)
    requires DateBefore(y1, m1, d1, y2, m2, d2)
    ensures Ordinal(y1, m1, d1) < Ordinal(y2, m2, d2)
  {
    if y1 < y2 {
      if m1 < 12 { DaysBeforeMonthMono(y1, m1, 12); }
      DaysBeforeMonthYear(y1);
      DaysBeforeYearMono(y1, y2);
    } else if m1 < m2 {
      DaysBeforeMonthMono(y1, m1, m2);
    }
  }

  lemma ClockBounds(dt: DateTime)
    requires Valid(dt)
    ensures 0 <= ClockMicros(dt) < MicrosPerDay
  {
  }

  lemma DayScale(o1: int, o2: int, c1: int, c2: int)
    requires o1 < o2 && 0 <= c1 < MicrosPerDay && 0 <= c2 < MicrosPerDay
    ensures o1 * MicrosPerDay + c1 < o2 * MicrosPerDay + c2
  {
    assert (o2 - o1) * MicrosPerDay >= MicrosPerDay;
  }

  /**
   * How Python orders two naive values: field by field, from the year down to
   * the microsecond.
   */
  predicate FieldsLe(a: DateTime, b: DateTime)
  {
    if a.year != b.year then a.year < b.year
    else if a.month != b.month then a.month < b.month
    else if a.day != b.day then a.day < b.day
    else if a.hour != b.hour then a.hour < b.hour
    else if a.minute != b.minute then a.minute < b.minute
    else if a.second != b.second then a.second < b.second
    else a.microsecond <= b.microsecond
  }

  lemma ClockOrder(a: DateTime, b: DateTime)
    requires Valid(a) && Valid(b)
    requires a.year == b.year && a.month == b.month && a.day == b.day
    ensures FieldsLe(a, b) <==> ClockMicros(a) <= ClockMicros(b)
  {
  }

  /** Field order on naive values is the order of the time line. */
  lemma FieldsLeChronological(a: DateTime, b: DateTime)
    requires Valid(a) && Valid(b)
    ensures FieldsLe(a, b) <==> LocalMicros(a) <= LocalMicros(b)
  {
    ClockBounds(a);
    ClockBounds(b);
    if DateBefore(a.year, a.month, a.day, b.year, b.month, b.day) {
      OrdinalMono(a.year, a.month, a.day, b.year, b.month, b.day);
      DayScale(Ordinal(a.year, a.month, a.day), Ordinal(b.year, b.month, b.day), ClockMicros(a), ClockMicros(b));
    } else if DateBefore(b.year, b.month, b.day, a.year, a.month, a.day) {
      OrdinalMono(b.year, b.month, b.day, a.year, a.month, a.day);
      DayScale(Ordinal(b.year, b.month, b.day), Ordinal(a.year, a.month, a.day), ClockMicros(b), ClockMicros(a));
    } else {
      ClockOrder(a, b);
    }
  }

  // ---------------------------------------------------------------------------
  // Python comparison and subtraction
  // ---------------------------------------------------------------------------

  const MixedError := "can't compare offset-naive and offset-aware datetimes"

  /**
   * `a <= b`: naive values compare field by field, aware values by the instant
   * they denote, and a naive value against an aware one raises `TypeError`.
   */
  function LessEq(a: DateTime, b: DateTime): (r: Result<bool>)
    requires 1 <= a.month <= 12 && 1 <= b.month <= 12
    ensures r.Err? <==> Naive(a) != Naive(b)
  {
    if Naive(a) && Naive(b) then Ok(FieldsLe(a, b))
    else if !Naive(a) && !Naive(b) then Ok(UtcMicros(a) <= UtcMicros(b))
    else Err(MixedError)
  }

  /**
   * `(a - b)` as whole microseconds: wall-clock difference for naive values,
   * difference of instants for aware ones, `TypeError` for a mixed pair.
   */
  function Subtract(a: DateTime, b: DateTime): (r: Result<int>)
    requires 1 <= a.month <= 12 && 1 <= b.month <= 12
    ensures r.Err? <==> Naive(a) != Naive(b)
  {
    if Naive(a) && Naive(b) then Ok(LocalMicros(a) - LocalMicros(b))
    else if !Naive(a) && !Naive(b) then Ok(UtcMicros(a) - UtcMicros(b))
    else Err("can't subtract offset-naive and offset-aware datetimes")
  }

  /** Comparison and subtraction agree: `a <= b` exactly when `a - b` is not positive. */
  lemma LessEqSubtract(a: DateTime, b: DateTime)
    requires Valid(a) && Valid(b)
    ensures LessEq(a, b).Ok? <==> Subtract(a, b).Ok?
    ensures LessEq(a, b).Ok? ==> (LessEq(a, b).value <==> Subtract(a, b).value <= 0)
  {
    if Naive(a) && Naive(b) {
      FieldsLeChronological(a, b);
    }
  }

  // ---------------------------------------------------------------------------
  // relativedelta(months=n)
  // ---------------------------------------------------------------------------

  /**
   * The `(years, months)` a `relativedelta(months=n)` holds after its
   * normalisation: beyond eleven months, whole years move into `years`,
   * rounding toward zero.
   */
  function RelativeMonths(n: int): (r: (int, int))
    ensures -11 <= r.1 <= 11
    ensures r.0 * 12 + r.1 == n
    ensures (r.0 >= 0 && r.1 >= 0) || (r.0 <= 0 && r.1 <= 0)
  {
    if -11 <= n <= 11 then (0, n)
    else
      var s := if n < 0 then -1 else 1;
      (s * ((n * s) / 12), s * ((n * s) % 12))
  }

  /** Negating a normalised `relativedelta` is normalising the negated count. */
  lemma RelativeMonthsNeg(n: int)
    ensures RelativeMonths(-n) == (-RelativeMonths(n).0, -RelativeMonths(n).1)
  {
    var (y, m) := RelativeMonths(n);
    var (y2, m2) := RelativeMonths(-n);
    // both are the truncating decomposition of their argument by 12
    assert (y2 + y) * 12 == -(m2 + m);
    assert -22 <= m2 + m <= 22;
  }

  /** A year shift and a month shift of at most eleven, applied as `relativedelta.__add__` does. */
  function AddRelative(dt: DateTime, years: int, months: int): (r: Result<DateTime>)
    requires Valid(dt) && -11 <= months <= 11
    ensures r.Ok? ==> Valid(r.value)
  {
    var month0 := dt.month + months;
    var year := dt.year + years + (if month0 > 12 then 1 else if month0 < 1 then -1 else 0);
    var month := if month0 > 12 then month0 - 12 else if month0 < 1 then month0 + 12 else month0;
    var day := if dt.day <= DaysInMonth(year, month) then dt.day else DaysInMonth(year, month);
    if year < MinYear || year > MaxYear then Err("year " + "is out of range")
    else Ok(dt.(year := year, month := month, day := day))
  }

  /** `dt + relativedelta(months=n)`. */
  function AddMonths(dt: DateTime, n: int): Result<DateTime>
    requires Valid(dt)
  {
    AddRelative(dt, RelativeMonths(n).0, RelativeMonths(n).1)
  }

  /** `dt - relativedelta(months=n)`, that is `dt + (-relativedelta(months=n))`. */
  function SubMonths(dt: DateTime, n: int): Result<DateTime>
    requires Valid(dt)
  {
    AddRelative(dt, -RelativeMonths(n).0, -RelativeMonths(n).1)
  }

  /** Months since the start of year 0. */
  function MonthIndex(y: int, m: int): int
  {
    y * 12 + (m - 1)
  }

  /**
   * The month shift in calendar terms: `n` months are added to the month
   * count, the day is clamped to the target month's length, the time of day
   * and the offset are kept, and the shift fails exactly when the target year
   * leaves 1..9999.
   */
  lemma AddMonthsCalendar(dt: DateTime, n: int)
    requires Valid(dt)
    ensures var target := MonthIndex(dt.year, dt.month) + n;
      AddMonths(dt, n).Ok? <==> MinYear <= target / 12 <= MaxYear
    ensures AddMonths(dt, n).Ok? ==>
      var r := AddMonths(dt, n).value;
      Valid(r)
      && MonthIndex(r.year, r.month) == MonthIndex(dt.year, dt.month) + n
      && r.day == Min(dt.day, DaysInMonth(r.year, r.month))
      && r.hour == dt.hour && r.minute == dt.minute && r.second == dt.second
      && r.microsecond == dt.microsecond && r.offset == dt.offset
  {
    ShiftCalendar(dt, RelativeMonths(n).0, RelativeMonths(n).1);
  }

  /** `dt - relativedelta(months=n)` is the shift by `-n` months. */
  /** `SubMonths` moves by `-n` months, with the same clamping of the day as `AddMonths`. */
  lemma SubMonthsCalendar(dt: DateTime, n: int)
    requires Valid(dt) && SubMonths(dt, n).Ok?
    ensures var r := SubMonths(dt, n).value;
      Valid(r)
      && MonthIndex(r.year, r.month) == MonthIndex(dt.year, dt.month) - n
      && r.day == Min(dt.day, DaysInMonth(r.year, r.month))
      && r.hour == dt.hour && r.minute == dt.minute && r.second == dt.second
      && r.microsecond == dt.microsecond && r.offset == dt.offset
  {
    SubMonthsIsAddNeg(dt, n);
    AddMonthsCalendar(dt, -n);
  }

  lemma SubMonthsIsAddNeg(dt: DateTime, n: int)
    requires Valid(dt)
    ensures SubMonths(dt, n) == AddMonths(dt, -n)
  {
    RelativeMonthsNeg(n);
  }

  lemma ShiftCalendar(dt: DateTime, years: int, months: int)
    requires Valid(dt) && -11 <= months <= 11
    ensures var target := MonthIndex(dt.year, dt.month) + years * 12 + months;
      AddRelative(dt, years, months).Ok? <==> MinYear <= target / 12 <= MaxYear
    ensures AddRelative(dt, years, months).Ok? ==>
      var r := AddRelative(dt, years, months).value;
      Valid(r)
      && MonthIndex(r.year, r.month) == MonthIndex(dt.year, dt.month) + years * 12 + months
      && r.day == Min(dt.day, DaysInMonth(r.year, r.month))
      && r.hour == dt.hour && r.minute == dt.minute && r.second == dt.second
      && r.microsecond == dt.microsecond && r.offset == dt.offset
  {
    var month0 := dt.month + months;
    var year := dt.year + years + (if month0 > 12 then 1 else if month0 < 1 then -1 else 0);
    var month := if month0 > 12 then month0 - 12 else if month0 < 1 then month0 + 12 else month0;
    var target := MonthIndex(dt.year, dt.month) + years * 12 + months;
    assert target == year * 12 + (month - 1);
    assert target / 12 == year;
  }

  // ---------------------------------------------------------------------------
  // strftime('%Y-%m-%dT%H:%M:%SZ')
  // ---------------------------------------------------------------------------

  /** `%Y-%m-%d`. */
  function DateText(dt: DateTime): string
    requires Valid(dt)
  {
    Pad(dt.year, 4) + "-" + Pad(dt.month, 2) + "-" + Pad(dt.day, 2)
  }

  /** `%H:%M:%S`. */
  function TimeText(dt: DateTime): string
    requires Valid(dt)
  {
    Pad(dt.hour, 2) + ":" + Pad(dt.minute, 2) + ":" + Pad(dt.second, 2)
  }

  /**
   * `dt.strftime('%Y-%m-%dT%H:%M:%SZ')`: zero-padded fields, microseconds
   * dropped, and a literal `Z` whatever the offset.
   */
  function FormatGithub(dt: DateTime): string
    requires Valid(dt)
  {
    DateText(dt) + "T" + TimeText(dt) + "Z"
  }

  /** Two ASCII digits whose value lies in `lo..hi`. */
  predicate TwoDigitsIn(s: string, lo: nat, hi: nat)
  {
    |s| == 2 && AllDigits(s) && lo <= DigitsValue(s) <= hi
  }

  /** `full-date` of section 5.6 of RFC 3339, with the day bound of its section 5.7. */
  predicate Rfc3339FullDate(s: string)
  {
    |s| == 10
    && AllDigits(s[0..4]) && s[4] == '-' && TwoDigitsIn(s[5..7], 1, 12) && s[7] == '-'
    && TwoDigitsIn(s[8..10], 1, DaysInMonth(DigitsValue(s[0..4]), DigitsValue(s[5..7])))
  }

  /** `partial-time` of section 5.6 of RFC 3339 without `time-secfrac`; `60` is the leap second. */
  predicate Rfc3339PartialTime(s: string)
  {
    |s| == 8
    && TwoDigitsIn(s[0..2], 0, 23) && s[2] == ':'
    && TwoDigitsIn(s[3..5], 0, 59) && s[5] == ':'
    && TwoDigitsIn(s[6..8], 0, 60)
  }

  /** `date-time` of section 5.6 of RFC 3339 with the `Z` offset (either case, as its section 5.6 allows). */
  predicate Rfc3339UtcDateTime(s: string)
  {
    |s| == 20
    && Rfc3339FullDate(s[0..10]) && (s[10] == 'T' || s[10] == 't')
    && Rfc3339PartialTime(s[11..19]) && (s[19] == 'Z' || s[19] == 'z')
  }

  lemma PadTwo(n: nat)
    requires n < 100
    ensures |Pad(n, 2)| == 2 && AllDigits(Pad(n, 2)) && DigitsValue(Pad(n, 2)) == n
  {
    PadLength(n, 2);
    PadDigits(n, 2);
  }

  lemma DateTextFields(dt: DateTime)
    requires Valid(dt)
    ensures var s := DateText(dt);
      |s| == 10 && s[0..4] == Pad(dt.year, 4) && s[4] == '-' && s[5..7] == Pad(dt.month, 2)
      && s[7] == '-' && s[8..10] == Pad(dt.day, 2)
  {
    PadLength(dt.year, 4);
    PadTwo(dt.month);
    PadTwo(dt.day);
  }

  lemma TimeTextFields(dt: DateTime)
    requires Valid(dt)
    ensures var s := TimeText(dt);
      |s| == 8 && s[0..2] == Pad(dt.hour, 2) && s[2] == ':' && s[3..5] == Pad(dt.minute, 2)
      && s[5] == ':' && s[6..8] == Pad(dt.second, 2)
  {
    PadTwo(dt.hour);
    PadTwo(dt.minute);
    PadTwo(dt.second);
  }

  lemma FormatGithubParts(dt: DateTime)
    requires Valid(dt)
    ensures var s := FormatGithub(dt);
      |s| == 20 && s[0..10] == DateText(dt) && s[10] == 'T' && s[11..19] == TimeText(dt) && s[19] == 'Z'
  {
    DateTextFields(dt);
    TimeTextFields(dt);
  }

  /** The date and clock fields an RFC 3339 UTC timestamp spells out. */
  function Rfc3339Fields(s: string): (int, int, int, int, int, int)
    requires Rfc3339UtcDateTime(s)
  {
    var d := s[0..10];
    var t := s[11..19];
    (DigitsValue(d[0..4]), DigitsValue(d[5..7]), DigitsValue(d[8..10]),
     DigitsValue(t[0..2]), DigitsValue(t[3..5]), DigitsValue(t[6..8]))
  }

  /** The GitHub timestamp is an RFC 3339 date-time whose fields read back as those of `dt`. */
  lemma FormatGithubRfc3339(dt: DateTime)
    requires Valid(dt)
    ensures Rfc3339UtcDateTime(FormatGithub(dt))
    ensures Rfc3339Fields(FormatGithub(dt)) == (dt.year, dt.month, dt.day, dt.hour, dt.minute, dt.second)
  {
    FormatGithubParts(dt);
    DateTextFields(dt);
    TimeTextFields(dt);
    PadDigits(dt.year, 4);
    PadTwo(dt.month);
    PadTwo(dt.day);
    PadTwo(dt.hour);
    PadTwo(dt.minute);
    PadTwo(dt.second);
  }

  /** Where each field sits in the GitHub timestamp. */
  lemma FormatGithubLayout(dt: DateTime)
    requires Valid(dt)
    ensures var s := FormatGithub(dt);
      |s| == 20 && s[0..4] == Pad(dt.year, 4) && s[4] == '-' && s[5..7] == Pad(dt.month, 2)
      && s[7] == '-' && s[8..10] == Pad(dt.day, 2) && s[10] == 'T'
      && s[11..13] == Pad(dt.hour, 2) && s[13] == ':' && s[14..16] == Pad(dt.minute, 2)
      && s[16] == ':' && s[17..19] == Pad(dt.second, 2) && s[19] == 'Z'
  {
    var s := FormatGithub(dt);
    FormatGithubParts(dt);
    DateTextFields(dt);
    TimeTextFields(dt);
    assert s[0..4] == s[0..10][0..4] && s[5..7] == s[0..10][5..7] && s[8..10] == s[0..10][8..10];
    assert s[11..13] == s[11..19][0..2] && s[14..16] == s[11..19][3..5] && s[17..19] == s[11..19][6..8];
  }
}
