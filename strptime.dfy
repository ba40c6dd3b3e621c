/**
 * `datetime.strptime` for the handful of fixed formats the modelled code
 * uses. CPython compiles a format into a regular expression (one group per
 * directive, whitespace turned into `\s+`, literals matched ignoring case),
 * matches it at the start of the input with backtracking, rejects input left
 * over after the match, converts the groups and lets the `datetime`
 * constructor validate the result.
 */
module Strptime {

  import opened Wrappers
  import opened Text
  import opened Calendar

  /** One element of a compiled format. */
  datatype Directive =
    | Year      // %Y: \d\d\d\d
    | Month     // %m: 1[0-2]|0[1-9]|[1-9]
    | Day       // %d: 3[01]|[12]\d|0[1-9]|[1-9]| [1-9]
    | Hour      // %H: 2[0-3]|[0-1]\d|\d
    | Minute    // %M: [0-5]\d|\d
    | Second    // %S: 6[0-1]|[0-5]\d|\d
    | Fraction  // %f: [0-9]{1,6}
    | Lit(c: char)
    | Spaces    // a run of whitespace in the format: \s+

  type Format = seq<Directive>

  /** '%Y-%m-%dT', the start of the three `Z` formats. */
  const DateT: Format := [Year, Lit('-'), Month, Lit('-'), Day, Lit('T')]
  /** '%Y-%m-%dT%H:%MZ' */
  const MinuteZ: Format := DateT + [Hour, Lit(':'), Minute, Lit('Z')]
  /** '%Y-%m-%dT%H:%M:%SZ' */
  const SecondZ: Format := DateT + [Hour, Lit(':'), Minute, Lit(':'), Second, Lit('Z')]
  /** '%Y-%m-%dT%H:%M:%S.%fZ' */
  const FractionZ: Format := DateT + [Hour, Lit(':'), Minute, Lit(':'), Second, Lit('.'), Fraction, Lit('Z')]
  /** '%Y-%m-%d %H:%M:%S' */
  const SpaceSeconds: Format := [Year, Lit('-'), Month, Lit('-'), Day, Spaces, Hour, Lit(':'), Minute, Lit(':'), Second]
  /** '%Y-%m-%d' */
  const DateOnly: Format := [Year, Lit('-'), Month, Lit('-'), Day]

  // ---------------------------------------------------------------------------
  // The regular expression of each directive
  // ---------------------------------------------------------------------------

  /** A character class of the compiled pattern; literals match ignoring ASCII case. */
  datatype CharClass = Range(lo: char, hi: char) | Fold(c: char)

  predicate InClass(x: char, k: CharClass)
  {
    match k
    case Range(lo, hi) => lo <= x <= hi
    case Fold(c) => AsciiLower(x) == AsciiLower(c)
  }

  /** One alternative of a directive's pattern: a fixed sequence of character classes. */
  type Branch = seq<CharClass>

  const D: CharClass := Range('0', '9')

  /**
   * The alternatives of each directive except `Spaces`, in the order the
   * pattern lists them; `[0-9]{1,6}` is greedy, so its lengths come longest first.
   */
  function Branches(d: Directive): seq<Branch>
  {
    match d
    case Year => [[D, D, D, D]]
    case Month => [[Range('1', '1'), Range('0', '2')], [Range('0', '0'), Range('1', '9')], [Range('1', '9')]]
    case Day =>
      [[Range('3', '3'), Range('0', '1')], [Range('1', '2'), D], [Range('0', '0'), Range('1', '9')],
       [Range('1', '9')], [Range(' ', ' '), Range('1', '9')]]
    case Hour => [[Range('2', '2'), Range('0', '3')], [Range('0', '1'), D], [D]]
    case Minute => [[Range('0', '5'), D], [D]]
    case Second => [[Range('6', '6'), Range('0', '1')], [Range('0', '5'), D], [D]]
    case Fraction => [[D, D, D, D, D, D], [D, D, D, D, D], [D, D, D, D], [D, D, D], [D, D], [D]]
    case Lit(c) => [[Fold(c)]]
    case Spaces => []
  }

  predicate BranchMatches(b: Branch, s: string, i: nat)
  {
    i + |b| <= |s| && forall k :: 0 <= k < |b| ==> InClass(s[i + k], b[k])
  }

  /** The lengths of the branches that match at `i`, in order. */
  function Lengths(bs: seq<Branch>, s: string, i: nat): (ls: seq<nat>)
    ensures forall k :: 0 <= k < |ls| ==> i + ls[k] <= |s|
  {
    if bs == [] then []
    else (if BranchMatches(bs[0], s, i) then [|bs[0]|] else []) + Lengths(bs[1..], s, i)
  }

  /** `[k, k-1, ..., 1]`: the lengths a greedy `x+` tries, longest first. */
  function Countdown(k: nat): (alts: seq<nat>)
    ensures |alts| == k
    ensures forall j :: 0 <= j < k ==> alts[j] == k - j
  {
    if k == 0 then [] else [k] + Countdown(k - 1)
  }

  /** Number of whitespace characters from `j` on. */
  function SpaceRun(s: string, j: nat): (n: nat)
    requires j <= |s|
    ensures j + n <= |s|
    decreases |s| - j
  {
    if j == |s| || !IsSpace(s[j]) then 0 else 1 + SpaceRun(s, j + 1)
  }

  /**
   * The lengths of the alternatives of `d` that match at `i`, in the order the
   * regular expression tries them.
   */
  function Alternatives(d: Directive, s: string, i: nat): (alts: seq<nat>)
    requires i <= |s|
    ensures forall k :: 0 <= k < |alts| ==> i + alts[k] <= |s|
  {
    if d == Spaces then Countdown(SpaceRun(s, i)) else Lengths(Branches(d), s, i)
  }

  // ---------------------------------------------------------------------------
  // Backtracking match
  // ---------------------------------------------------------------------------

  /** The text each directive matched, and where the match ended. */
  datatype Captures = Captures(groups: seq<string>, end: nat)

  /**
   * `re.match` of the compiled format from index `i`: the first combination
   * of alternatives, in backtracking order, that matches every directive.
   * There is no end anchor.
   */
  function MatchFrom(fmt: Format, s: string, i: nat): (r: Option<Captures>)
    requires i <= |s|
    ensures r.Some? ==> |r.value.groups| == |fmt| && i <= r.value.end <= |s|
    decreases |fmt|, 1, 0
  {
    if fmt == [] then Some(Captures([], i))
    else TryAlternatives(fmt, s, i, Alternatives(fmt[0], s, i))
  }

  /** Tries the remaining alternatives `alts` of `fmt[0]` in order. */
  function TryAlternatives(fmt: Format, s: string, i: nat, alts: seq<nat>): (r: Option<Captures>)
    requires fmt != [] && i <= |s|
    requires forall k :: 0 <= k < |alts| ==> i + alts[k] <= |s|
    ensures r.Some? ==> |r.value.groups| == |fmt| && i <= r.value.end <= |s|
    decreases |fmt|, 0, |alts|
  {
    if alts == [] then None
    else match MatchFrom(fmt[1..], s, i + alts[0])
      case Some(c) => Some(Captures([s[i..i + alts[0]]] + c.groups, c.end))
      case None => TryAlternatives(fmt, s, i, alts[1..])
  }

  // ---------------------------------------------------------------------------
  // Conversion of the groups
  // ---------------------------------------------------------------------------

  /** The group of the first occurrence of `d` in the format. */
  function Lookup(fmt: Format, groups: seq<string>, d: Directive): Option<string>
    requires |groups| == |fmt|
  {
    if fmt == [] then None
    else if fmt[0] == d then Some(groups[0])
    else Lookup(fmt[1..], groups[1..], d)
  }

  /** `int(g)` for a numeric group; `int` ignores the leading space `%d` may capture. */
  function Number(g: string): nat
  {
    var t := if |g| > 0 && g[0] == ' ' then g[1..] else g;
    if AllDigits(t) then DigitsValue(t) else 0
  }

  /** The `%f` group right-padded with zeros to six digits, read as microseconds. */
  function FractionMicros(g: string): nat
  {
    if AllDigits(g) && |g| <= 6 then DigitsValue(g) * Power10(6 - |g|) else 0
  }

  function NumberOr(g: Option<string>, default: nat): nat
  {
    match g
    case None => default
    case Some(t) => Number(t)
  }

  /**
   * The `datetime` built from the groups: missing fields default to
   * 1900-01-01 00:00:00.000000, and invalid dates (day beyond the month,
   * year 0, second 60 or 61) are rejected.
   */
  function Convert(fmt: Format, groups: seq<string>): (r: Result<DateTime>)
    requires |groups| == |fmt|
    ensures r.Ok? ==> Valid(r.value) && Naive(r.value)
  {
    Checked(Fields(fmt, groups))
  }

  /** The `datetime` constructor's range checks. */
  function Checked(dt: DateTime): (r: Result<DateTime>)
    ensures r.Ok? <==> Valid(dt)
    ensures r.Ok? ==> r.value == dt
  {
    if Valid(dt) then Ok(dt) else Err("field out of range")
  }

  /** The fields read from the groups, before validation. */
  function Fields(fmt: Format, groups: seq<string>): DateTime
    requires |groups| == |fmt|
  {
    var micro := match Lookup(fmt, groups, Fraction) case None => 0 case Some(g) => FractionMicros(g);
    DateTime(
      NumberOr(Lookup(fmt, groups, Year), 1900), NumberOr(Lookup(fmt, groups, Month), 1),
      NumberOr(Lookup(fmt, groups, Day), 1), NumberOr(Lookup(fmt, groups, Hour), 0),
      NumberOr(Lookup(fmt, groups, Minute), 0), NumberOr(Lookup(fmt, groups, Second), 0),
      micro, None)
  }

  /** `datetime.strptime(s, fmt)`. */
  function Parse(s: string, fmt: Format): (r: Result<DateTime>)
    ensures r.Ok? ==> Valid(r.value) && Naive(r.value)
  {
    match MatchFrom(fmt, s, 0)
    case None => Err("time data does not match format")
    case Some(c) =>
      if c.end != |s| then Err("unconverted data remains")
      else Convert(fmt, c.groups)
  }

  // ---------------------------------------------------------------------------
  // How far a match can reach
  // ---------------------------------------------------------------------------

  /** The longest alternative of a directive other than `Spaces`. */
  function Width(d: Directive): nat
  {
    match d
    case Year => 4
    case Fraction => 6
    case Lit(_) => 1
    case Spaces => 0
    case _ => 2
  }

  /** The most characters a format without `Spaces` can consume. */
  function MaxWidth(fmt: Format): nat
  {
    if fmt == [] then 0 else Width(fmt[0]) + MaxWidth(fmt[1..])
  }

  lemma {:induction false} LengthsBound(bs: seq<Branch>, s: string, i: nat, w: nat)
    requires forall k :: 0 <= k < |bs| ==> |bs[k]| <= w
    ensures forall k :: 0 <= k < |Lengths(bs, s, i)| ==> Lengths(bs, s, i)[k] <= w
  {
    if bs != [] {
      LengthsBound(bs[1..], s, i, w);
    }
  }

  lemma AlternativesBound(d: Directive, s: string, i: nat)
    requires i <= |s| && d != Spaces
    ensures forall k :: 0 <= k < |Alternatives(d, s, i)| ==> Alternatives(d, s, i)[k] <= Width(d)
  {
    LengthsBound(Branches(d), s, i, Width(d));
  }

  lemma {:induction false} MatchWidth(fmt: Format, s: string, i: nat)
    requires i <= |s| && Spaces !in fmt
    ensures MatchFrom(fmt, s, i).Some? ==> MatchFrom(fmt, s, i).value.end <= i + MaxWidth(fmt)
    decreases |fmt|, 1, 0
  {
    if fmt != [] {
      AlternativesBound(fmt[0], s, i);
      TryWidth(fmt, s, i, Alternatives(fmt[0], s, i));
    }
  }

  lemma {:induction false} TryWidth(fmt: Format, s: string, i: nat, alts: seq<nat>)
    requires fmt != [] && i <= |s| && Spaces !in fmt
    requires forall k :: 0 <= k < |alts| ==> i + alts[k] <= |s| && alts[k] <= Width(fmt[0])
    ensures TryAlternatives(fmt, s, i, alts).Some? ==> TryAlternatives(fmt, s, i, alts).value.end <= i + MaxWidth(fmt)
    decreases |fmt|, 0, |alts|
  {
    if alts != [] {
      assert Spaces !in fmt[1..] by {
        assert forall k :: 0 <= k < |fmt| - 1 ==> fmt[1..][k] == fmt[k + 1];
      }
      MatchWidth(fmt[1..], s, i + alts[0]);
      TryWidth(fmt, s, i, alts[1..]);
    }
  }

  lemma {:induction false} MaxWidthAppend(f: Format, g: Format)
    ensures MaxWidth(f + g) == MaxWidth(f) + MaxWidth(g)
  {
    if f != [] {
      assert (f + g)[1..] == f[1..] + g;
      MaxWidthAppend(f[1..], g);
    } else {
      assert f + g == g;
    }
  }

  /** How far the three `Z` formats reach; none of them holds `Spaces`. */
  lemma FormatWidths()
    ensures MaxWidth(MinuteZ) == 17 && MaxWidth(SecondZ) == 20 && MaxWidth(FractionZ) == 27
    ensures Spaces !in MinuteZ && Spaces !in SecondZ && Spaces !in FractionZ
  {
    MinuteZWidth();
    SecondZWidth();
    FractionZWidth();
  }

  lemma DateTWidth()
    ensures MaxWidth(DateT) == 11
  {
  }

  lemma FractionZNoSpaces()
    ensures Spaces !in FractionZ
  {
  }

  lemma MinuteZWidth()
    ensures MaxWidth(MinuteZ) == 17 && Spaces !in MinuteZ
  {
    DateTWidth();
    MaxWidthAppend(DateT, [Hour, Lit(':'), Minute, Lit('Z')]);
  }

  lemma SecondZWidth()
    ensures MaxWidth(SecondZ) == 20 && Spaces !in SecondZ
  {
    DateTWidth();
    MaxWidthAppend(DateT, [Hour, Lit(':'), Minute, Lit(':'), Second, Lit('Z')]);
  }

  lemma FractionZWidth()
    ensures MaxWidth(FractionZ) == 27 && Spaces !in FractionZ
  {
    FractionZNoSpaces();
    DateTWidth();
    var head: Format := [Hour, Lit(':'), Minute, Lit(':')];
    var tail: Format := [Second, Lit('.'), Fraction, Lit('Z')];
    assert MaxWidth(head) == 6 && MaxWidth(tail) == 10;
    MaxWidthAppend(head, tail);
    assert head + tail == [Hour, Lit(':'), Minute, Lit(':'), Second, Lit('.'), Fraction, Lit('Z')];
    MaxWidthAppend(DateT, head + tail);
  }

  /** Input longer than the format can consume always leaves unconverted data. */
  lemma ParseTooLong(s: string, fmt: Format)
    requires Spaces !in fmt && |s| > MaxWidth(fmt)
    ensures Parse(s, fmt).Err?
  {
    MatchWidth(fmt, s, 0);
  }

  // ---------------------------------------------------------------------------
  // A match found without backtracking
  // ---------------------------------------------------------------------------

  /** A first alternative that leads to a match of the rest is the match. */
  lemma MatchCons(d: Directive, fmt: Format, s: string, i: nat, n: nat, c: Captures)
    requires i <= |s|
    requires Alternatives(d, s, i) != [] && Alternatives(d, s, i)[0] == n
    requires MatchFrom(fmt, s, i + n) == Some(c)
    ensures MatchFrom([d] + fmt, s, i) == Some(Captures([s[i..i + n]] + c.groups, c.end))
  {
    assert ([d] + fmt)[0] == d && ([d] + fmt)[1..] == fmt;
  }

  lemma LitFirst(c: char, s: string, j: nat)
    requires j < |s| && AsciiLower(s[j]) == AsciiLower(c)
    ensures Alternatives(Lit(c), s, j) == [1]
  {
    var bs := Branches(Lit(c));
    assert BranchMatches(bs[0], s, j) && |bs[0]| == 1;
    assert Lengths(bs[1..], s, j) == [];
  }

  lemma YearFirst(s: string, j: nat)
    requires YearField(s, j)
    ensures Alternatives(Year, s, j) == [4]
  {
    var bs := Branches(Year);
    assert BranchMatches(bs[0], s, j) && |bs[0]| == 4;
    assert Lengths(bs[1..], s, j) == [];
  }

  /** The values a two-digit field of each directive accepts. */
  predicate InRange(d: Directive, v: int)
  {
    match d
    case Month => 1 <= v <= 12
    case Day => 1 <= v <= 31
    case Hour => 0 <= v <= 23
    case Minute => 0 <= v <= 59
    case Second => 0 <= v <= 61
    case _ => false
  }

  /** The value of the two digits at `j`. */
  function TwoDigitValue(s: string, j: nat): nat
    requires j + 2 <= |s| && IsDigit(s[j]) && IsDigit(s[j + 1])
  {
    10 * DigitValue(s[j]) + DigitValue(s[j + 1])
  }

  /** Two digits at `j` forming a value directive `d` accepts. */
  predicate Field(s: string, j: nat, d: Directive)
  {
    j + 2 <= |s| && IsDigit(s[j]) && IsDigit(s[j + 1]) && InRange(d, TwoDigitValue(s, j))
  }

  /** Four digits at `j`. */
  predicate YearField(s: string, j: nat)
  {
    j + 4 <= |s| && IsDigit(s[j]) && IsDigit(s[j + 1]) && IsDigit(s[j + 2]) && IsDigit(s[j + 3])
  }

  lemma TwoDigitsValue(t: string)
    requires |t| == 2 && AllDigits(t)
    ensures DigitsValue(t) == 10 * DigitValue(t[0]) + DigitValue(t[1])
  {
    var h := t[..1];
    assert h[..0] == [] && h[0] == t[0];
    assert DigitsValue(h) == DigitValue(t[0]);
  }

  /** The first alternative tried is the first branch that matches. */
  lemma {:induction false} LengthsFirst(bs: seq<Branch>, s: string, j: nat, m: nat)
    requires m < |bs| && BranchMatches(bs[m], s, j)
    requires forall k :: 0 <= k < m ==> !BranchMatches(bs[k], s, j)
    ensures Lengths(bs, s, j) != [] && Lengths(bs, s, j)[0] == |bs[m]|
  {
    if m > 0 {
      LengthsFirst(bs[1..], s, j, m - 1);
    }
  }

  /** A zero-padded field in range is taken whole by the first alternative that fits. */
  lemma TwoDigitFirst(d: Directive, s: string, j: nat)
    requires Field(s, j, d)
    ensures Alternatives(d, s, j) != [] && Alternatives(d, s, j)[0] == 2
  {
    var bs := Branches(d);
    var m: nat :=
      if (d == Month && s[j] == '0') || (d == Day && s[j] in "12") || (d == Hour && s[j] != '2')
         || (d == Second && s[j] != '6') then 1
      else if d == Day && s[j] == '0' then 2
      else 0;
    forall k | 0 <= k < m
      ensures !BranchMatches(bs[k], s, j)
    {
      assert !InClass(s[j + 0], bs[k][0]);
    }
    LengthsFirst(bs, s, j, m);
  }

  // ---------------------------------------------------------------------------
  // Reading the groups back
  // ---------------------------------------------------------------------------

  lemma {:induction false} LookupAt(fmt: Format, gs: seq<string>, k: nat)
    requires |gs| == |fmt| && k < |fmt|
    requires forall j :: 0 <= j < k ==> fmt[j] != fmt[k]
    ensures Lookup(fmt, gs, fmt[k]) == Some(gs[k])
  {
    if k > 0 {
      assert fmt[0] != fmt[k];
      LookupAt(fmt[1..], gs[1..], k - 1);
    }
  }

  lemma {:induction false} LookupAbsent(fmt: Format, gs: seq<string>, d: Directive)
    requires |gs| == |fmt| && forall j :: 0 <= j < |fmt| ==> fmt[j] != d
    ensures Lookup(fmt, gs, d) == None
  {
    if fmt != [] {
      assert fmt[0] != d;
      LookupAbsent(fmt[1..], gs[1..], d);
    }
  }

  /** `int()` of a zero-padded field reads back its value. */
  lemma NumberPad(v: nat, w: nat)
    requires 1 <= w && v < Power10(w)
    ensures Number(Pad(v, w)) == v
  {
    PadLength(v, w);
    PadDigits(v, w);
    assert IsDigit(Pad(v, w)[0]);
  }

  /** The date fields of the three `Z` formats sit at groups 0, 2 and 4, the clock fields at 6, 8 and 10. */
  lemma LookupDate(fmt: Format, gs: seq<string>)
    requires |gs| == |fmt| && |fmt| >= 9 && fmt[..9] == DateT + [Hour, Lit(':'), Minute]
    ensures Lookup(fmt, gs, Year) == Some(gs[0]) && Lookup(fmt, gs, Month) == Some(gs[2])
    ensures Lookup(fmt, gs, Day) == Some(gs[4]) && Lookup(fmt, gs, Hour) == Some(gs[6])
    ensures Lookup(fmt, gs, Minute) == Some(gs[8])
  {
    assert forall j :: 0 <= j < 9 ==> fmt[j] == fmt[..9][j];
    LookupAt(fmt, gs, 0);
    LookupAt(fmt, gs, 2);
    LookupAt(fmt, gs, 4);
    LookupAt(fmt, gs, 6);
    LookupAt(fmt, gs, 8);
  }

  lemma FieldsMinuteZ(gs: seq<string>)
    requires |gs| == |MinuteZ|
    ensures Fields(MinuteZ, gs) ==
      DateTime(Number(gs[0]), Number(gs[2]), Number(gs[4]), Number(gs[6]), Number(gs[8]), 0, 0, None)
  {
    LookupDate(MinuteZ, gs);
    LookupAbsent(MinuteZ, gs, Second);
    LookupAbsent(MinuteZ, gs, Fraction);
  }

  lemma FieldsSecondZ(gs: seq<string>)
    requires |gs| == |SecondZ|
    ensures Fields(SecondZ, gs) ==
      DateTime(Number(gs[0]), Number(gs[2]), Number(gs[4]), Number(gs[6]), Number(gs[8]), Number(gs[10]), 0, None)
  {
    LookupDate(SecondZ, gs);
    LookupAt(SecondZ, gs, 10);
    LookupAbsent(SecondZ, gs, Fraction);
  }

  lemma FieldsFractionZ(gs: seq<string>)
    requires |gs| == |FractionZ|
    ensures Fields(FractionZ, gs) ==
      DateTime(Number(gs[0]), Number(gs[2]), Number(gs[4]), Number(gs[6]), Number(gs[8]), Number(gs[10]),
               FractionMicros(gs[12]), None)
  {
    LookupDate(FractionZ, gs);
    LookupAt(FractionZ, gs, 10);
    LookupAt(FractionZ, gs, 12);
  }

  // ---------------------------------------------------------------------------
  // Matching the fixed layouts piece by piece
  // ---------------------------------------------------------------------------

  /** A `%f` group of `k` digits ending before a non-digit is taken whole. */
  lemma FractionFirst(s: string, j: nat, k: nat)
    requires 1 <= k <= 6 && j + k <= |s| && AllDigits(s[j..j + k]) && (j + k == |s| || !IsDigit(s[j + k]))
    ensures Alternatives(Fraction, s, j) != [] && Alternatives(Fraction, s, j)[0] == k
  {
    var bs := Branches(Fraction);
    assert forall x :: 0 <= x < 6 ==> |bs[x]| == 6 - x && forall y :: 0 <= y < |bs[x]| ==> bs[x][y] == D;
    forall x | 0 <= x < 6 - k
      ensures !BranchMatches(bs[x], s, j)
    {
      if j + |bs[x]| <= |s| {
        assert !InClass(s[j + k], bs[x][k]);
      }
    }
    LengthsFirst(bs, s, j, 6 - k);
  }

  lemma LitStep(c: char, fmt: Format, s: string, i: nat, r: Captures)
    requires i < |s| && AsciiLower(s[i]) == AsciiLower(c) && MatchFrom(fmt, s, i + 1) == Some(r)
    ensures MatchFrom([Lit(c)] + fmt, s, i) == Some(Captures([s[i..i + 1]] + r.groups, r.end))
  {
    assert i <= |s| && Alternatives(Lit(c), s, i) != [] && Alternatives(Lit(c), s, i)[0] == 1 by { LitFirst(c, s, i); }
    MatchCons(Lit(c), fmt, s, i, 1, r);
  }

  lemma FieldStep(d: Directive, fmt: Format, s: string, i: nat, r: Captures)
    requires Field(s, i, d) && MatchFrom(fmt, s, i + 2) == Some(r)
    ensures MatchFrom([d] + fmt, s, i) == Some(Captures([s[i..i + 2]] + r.groups, r.end))
  {
    assert i <= |s| && Alternatives(d, s, i) != [] && Alternatives(d, s, i)[0] == 2 by { TwoDigitFirst(d, s, i); }
    MatchCons(d, fmt, s, i, 2, r);
  }

  lemma YearStep(fmt: Format, s: string, i: nat, r: Captures)
    requires YearField(s, i) && MatchFrom(fmt, s, i + 4) == Some(r)
    ensures MatchFrom([Year] + fmt, s, i) == Some(Captures([s[i..i + 4]] + r.groups, r.end))
  {
    assert i <= |s| && Alternatives(Year, s, i) != [] && Alternatives(Year, s, i)[0] == 4 by { YearFirst(s, i); }
    MatchCons(Year, fmt, s, i, 4, r);
  }

  lemma FractionStep(fmt: Format, s: string, i: nat, k: nat, r: Captures)
    requires 1 <= k <= 6 && i + k <= |s| && AllDigits(s[i..i + k]) && (i + k == |s| || !IsDigit(s[i + k]))
    requires MatchFrom(fmt, s, i + k) == Some(r)
    ensures MatchFrom([Fraction] + fmt, s, i) == Some(Captures([s[i..i + k]] + r.groups, r.end))
  {
    assert i <= |s| && Alternatives(Fraction, s, i) != [] && Alternatives(Fraction, s, i)[0] == k by { FractionFirst(s, i, k); }
    MatchCons(Fraction, fmt, s, i, k, r);
  }

  /** Equal formats match alike. */
  lemma MatchSame(f: Format, g: Format, s: string, i: nat, gs: seq<string>, hs: seq<string>, end: nat)
    requires i <= |s| && f == g && gs == hs && MatchFrom(f, s, i) == Some(Captures(gs, end))
    ensures MatchFrom(g, s, i) == Some(Captures(hs, end))
  {
  }

  /** The shape `YYYY-MM-DDT` at the start of `s`, with month and day in range. */
  predicate DateShape(s: string)
  {
    |s| >= 11 && YearField(s, 0) && s[4] == '-' && Field(s, 5, Month) && s[7] == '-'
    && Field(s, 8, Day) && s[10] == 'T'
  }

  // The piece lemmas below state the format and the groups in the nested form
  // the steps build them in; `MatchSame` turns them into the literal form once.

  /** `YYYY-MM` at `j` followed by a match of `rest` from `j + 7`. */
  lemma MatchYearMonth(s: string, j: nat, rest: Format, r: Captures)
    requires j + 7 <= |s| && YearField(s, j) && s[j + 4] == '-' && Field(s, j + 5, Month)
    requires MatchFrom(rest, s, j + 7) == Some(r)
    ensures MatchFrom([Year] + ([Lit('-')] + ([Month] + rest)), s, j) ==
      Some(Captures([s[j..j + 4]] + ([s[j + 4..j + 5]] + ([s[j + 5..j + 7]] + r.groups)), r.end))
  {
    FieldStep(Month, rest, s, j + 5, r);
    var c := Captures([s[j + 5..j + 7]] + r.groups, r.end);
    LitStep('-', [Month] + rest, s, j + 4, c);
    YearStep([Lit('-')] + ([Month] + rest), s, j, Captures([s[j + 4..j + 5]] + c.groups, r.end));
  }

  /** `-DDT` at `j` followed by a match of `rest` from `j + 4`. */
  lemma MatchDashDayT(s: string, j: nat, rest: Format, r: Captures)
    requires j + 4 <= |s| && s[j] == '-' && Field(s, j + 1, Day) && s[j + 3] == 'T'
    requires MatchFrom(rest, s, j + 4) == Some(r)
    ensures MatchFrom([Lit('-')] + ([Day] + ([Lit('T')] + rest)), s, j) ==
      Some(Captures([s[j..j + 1]] + ([s[j + 1..j + 3]] + ([s[j + 3..j + 4]] + r.groups)), r.end))
  {
    LitStep('T', rest, s, j + 3, r);
    var c := Captures([s[j + 3..j + 4]] + r.groups, r.end);
    FieldStep(Day, [Lit('T')] + rest, s, j + 1, c);
    LitStep('-', [Day] + ([Lit('T')] + rest), s, j, Captures([s[j + 1..j + 3]] + c.groups, r.end));
  }

  /** `HH:MM` at `j` followed by a match of `rest` from `j + 5`. */
  lemma MatchHourMinute(s: string, j: nat, rest: Format, r: Captures)
    requires j + 5 <= |s| && Field(s, j, Hour) && s[j + 2] == ':' && Field(s, j + 3, Minute)
    requires MatchFrom(rest, s, j + 5) == Some(r)
    ensures MatchFrom([Hour] + ([Lit(':')] + ([Minute] + rest)), s, j) ==
      Some(Captures([s[j..j + 2]] + ([s[j + 2..j + 3]] + ([s[j + 3..j + 5]] + r.groups)), r.end))
  {
    FieldStep(Minute, rest, s, j + 3, r);
    var c := Captures([s[j + 3..j + 5]] + r.groups, r.end);
    LitStep(':', [Minute] + rest, s, j + 2, c);
    FieldStep(Hour, [Lit(':')] + ([Minute] + rest), s, j, Captures([s[j + 2..j + 3]] + c.groups, r.end));
  }

  /** `:SS` at `j` followed by a match of `rest` from `j + 3`. */
  lemma MatchColonSecond(s: string, j: nat, rest: Format, r: Captures)
    requires j + 3 <= |s| && s[j] == ':' && Field(s, j + 1, Second) && MatchFrom(rest, s, j + 3) == Some(r)
    ensures MatchFrom([Lit(':')] + ([Second] + rest), s, j) ==
      Some(Captures([s[j..j + 1]] + ([s[j + 1..j + 3]] + r.groups), r.end))
  {
    FieldStep(Second, rest, s, j + 1, r);
    LitStep(':', [Second] + rest, s, j, Captures([s[j + 1..j + 3]] + r.groups, r.end));
  }

  /** `.` and `k` fraction digits at `j`, followed by a match of `rest`. */
  lemma MatchDotFraction(s: string, j: nat, k: nat, rest: Format, r: Captures)
    requires 1 <= k <= 6 && j + 1 + k <= |s| && s[j] == '.' && AllDigits(s[j + 1..j + 1 + k])
    requires j + 1 + k == |s| || !IsDigit(s[j + 1 + k])
    requires MatchFrom(rest, s, j + 1 + k) == Some(r)
    ensures MatchFrom([Lit('.')] + ([Fraction] + rest), s, j) ==
      Some(Captures([s[j..j + 1]] + ([s[j + 1..j + 1 + k]] + r.groups), r.end))
  {
    FractionStep(rest, s, j + 1, k, r);
    LitStep('.', [Fraction] + rest, s, j, Captures([s[j + 1..j + 1 + k]] + r.groups, r.end));
  }

  /** `HH:MM:SSZ` at `j`, the end of the GitHub timestamp. */
  lemma MatchClockZ(s: string, j: nat)
    requires j + 9 <= |s| && Field(s, j, Hour) && s[j + 2] == ':' && Field(s, j + 3, Minute)
    requires s[j + 5] == ':' && Field(s, j + 6, Second) && s[j + 8] == 'Z'
    ensures MatchFrom([Hour] + ([Lit(':')] + ([Minute] + ([Lit(':')] + ([Second] + ([Lit('Z')] + []))))), s, j) ==
      Some(Captures([s[j..j + 2]] + ([s[j + 2..j + 3]] + ([s[j + 3..j + 5]] + ([s[j + 5..j + 6]] + ([s[j + 6..j + 8]] + ([s[j + 8..j + 9]] + []))))), j + 9))
  {
    var r := Captures([], j + 9);
    assert MatchFrom([], s, j + 9) == Some(r);
    LitStep('Z', [], s, j + 8, r);
    var f := [Lit('Z')] + [];
    r := Captures([s[j + 8..j + 9]] + r.groups, j + 9);
    MatchColonSecond(s, j + 5, f, r);
    f := [Lit(':')] + ([Second] + f);
    r := Captures([s[j + 5..j + 6]] + ([s[j + 6..j + 8]] + r.groups), j + 9);
    MatchHourMinute(s, j, f, r);
  }

  /** `YYYY-MM-DDT` followed by a match of `rest` from index 11. */
  lemma MatchDate(s: string, rest: Format, r: Captures)
    requires |s| >= 11 && YearField(s, 0) && s[4] == '-' && Field(s, 5, Month) && s[7] == '-'
    requires Field(s, 8, Day) && s[10] == 'T' && MatchFrom(rest, s, 11) == Some(r)
    ensures MatchFrom([Year] + ([Lit('-')] + ([Month] + ([Lit('-')] + ([Day] + ([Lit('T')] + rest))))), s, 0) ==
      Some(Captures([s[0..4]] + ([s[4..5]] + ([s[5..7]] + ([s[7..8]] + ([s[8..10]] + ([s[10..11]] + r.groups))))), r.end))
  {
    MatchDashDayT(s, 7, rest, r);
    MatchYearMonth(s, 0, [Lit('-')] + ([Day] + ([Lit('T')] + rest)),
      Captures([s[7..8]] + ([s[8..10]] + ([s[10..11]] + r.groups)), r.end));
  }

  /** A list display in front of `rest`, written as the steps build it. */
  lemma Nest2<T>(a: T, b: T, rest: seq<T>)
    ensures [a, b] + rest == [a] + ([b] + rest)
  {
  }

  lemma Nest6<T>(a: T, b: T, c: T, d: T, e: T, f: T, rest: seq<T>)
    ensures [a, b, c, d, e, f] + rest == [a] + ([b] + ([c] + ([d] + ([e] + ([f] + rest)))))
  {
    assert [a, b, c, d, e, f] == [a, b] + [c, d] + [e, f];
    Nest2(e, f, rest);
    Nest2(c, d, [e, f] + rest);
    Nest2(a, b, [c, d] + ([e, f] + rest));
  }

  lemma Nest8<T>(a: T, b: T, c: T, d: T, e: T, f: T, g: T, h: T)
    ensures [a, b, c, d, e, f, g, h] == [a] + ([b] + ([c] + ([d] + ([e] + ([f] + ([g] + ([h] + [])))))))
  {
    Nest6(c, d, e, f, g, h, []);
    assert [a, b, c, d, e, f, g, h] == [a, b] + ([c, d, e, f, g, h] + []);
  }

  /** `YYYY-MM-DDT` followed by a match of `rest`, stated for the flat format and group list. */
  lemma MatchDateThen(s: string, rest: Format, r: Captures, whole: Format, groups: seq<string>)
    requires DateShape(s) && MatchFrom(rest, s, 11) == Some(r) && whole == DateT + rest
    requires groups == [s[0..4], s[4..5], s[5..7], s[7..8], s[8..10], s[10..11]] + r.groups
    ensures MatchFrom(whole, s, 0) == Some(Captures(groups, r.end))
  {
    MatchDate(s, rest, r);
    Nest6(Year, Lit('-'), Month, Lit('-'), Day, Lit('T'), rest);
    Nest6(s[0..4], s[4..5], s[5..7], s[7..8], s[8..10], s[10..11], r.groups);
  }

  /** The groups of `YYYY-MM-DDTHH:MM:SSZ` matched by `%Y-%m-%dT%H:%M:%SZ`. */
  function SecondZGroups(s: string): seq<string>
    requires |s| >= 20
  {
    [s[0..4]] + ([s[4..5]] + ([s[5..7]] + ([s[7..8]] + ([s[8..10]] + ([s[10..11]] +
      ([s[11..13]] + ([s[13..14]] + ([s[14..16]] + ([s[16..17]] + ([s[17..19]] + ([s[19..20]] + [])))))))))))
  }

  /** `YYYY-MM-DDTHH:MM:SSZ` matches `%Y-%m-%dT%H:%M:%SZ` without backtracking. */
  lemma MatchSecondZ(s: string)
    requires |s| == 20 && DateShape(s) && Field(s, 11, Hour) && s[13] == ':' && Field(s, 14, Minute)
    requires s[16] == ':' && Field(s, 17, Second) && s[19] == 'Z'
    ensures MatchFrom(SecondZ, s, 0) == Some(Captures(SecondZGroups(s), 20))
  {
    MatchClockZ(s, 11);
    var f := [Hour] + ([Lit(':')] + ([Minute] + ([Lit(':')] + ([Second] + ([Lit('Z')] + [])))));
    var gs := [s[11..13]] + ([s[13..14]] + ([s[14..16]] + ([s[16..17]] + ([s[17..19]] + ([s[19..20]] + [])))));
    SecondZNested();
    SecondZGroupsNested(s, gs);
    MatchDateThen(s, f, Captures(gs, 20), SecondZ, SecondZGroups(s));
  }

  lemma SecondZNested()
    ensures SecondZ == DateT + ([Hour] + ([Lit(':')] + ([Minute] + ([Lit(':')] + ([Second] + ([Lit('Z')] + []))))))
  {
    Nest6(Hour, Lit(':'), Minute, Lit(':'), Second, Lit('Z'), []);
    assert [Hour, Lit(':'), Minute, Lit(':'), Second, Lit('Z')] + [] == [Hour, Lit(':'), Minute, Lit(':'), Second, Lit('Z')];
  }

  lemma SecondZGroupsNested(s: string, gs: seq<string>)
    requires |s| == 20
    requires gs == [s[11..13]] + ([s[13..14]] + ([s[14..16]] + ([s[16..17]] + ([s[17..19]] + ([s[19..20]] + [])))))
    ensures SecondZGroups(s) == [s[0..4], s[4..5], s[5..7], s[7..8], s[8..10], s[10..11]] + gs
  {
    Nest6(s[0..4], s[4..5], s[5..7], s[7..8], s[8..10], s[10..11], gs);
  }

  /** The groups of `YYYY-MM-DDTHH:MMZ` matched by `%Y-%m-%dT%H:%MZ`. */
  function MinuteZGroups(s: string): seq<string>
    requires |s| >= 17
  {
    [s[0..4]] + ([s[4..5]] + ([s[5..7]] + ([s[7..8]] + ([s[8..10]] + ([s[10..11]] +
      ([s[11..13]] + ([s[13..14]] + ([s[14..16]] + ([s[16..17]] + [])))))))))
  }

  /** `HH:MMZ` at `j`, the end of a timestamp without seconds. */
  lemma MatchClockMinuteZ(s: string, j: nat)
    requires j + 6 <= |s| && Field(s, j, Hour) && s[j + 2] == ':' && Field(s, j + 3, Minute) && s[j + 5] == 'Z'
    ensures MatchFrom([Hour] + ([Lit(':')] + ([Minute] + ([Lit('Z')] + []))), s, j) ==
      Some(Captures([s[j..j + 2]] + ([s[j + 2..j + 3]] + ([s[j + 3..j + 5]] + ([s[j + 5..j + 6]] + []))), j + 6))
  {
    var r := Captures([], j + 6);
    assert MatchFrom([], s, j + 6) == Some(r);
    LitStep('Z', [], s, j + 5, r);
    MatchHourMinute(s, j, [Lit('Z')] + [], Captures([s[j + 5..j + 6]] + [], j + 6));
  }

  /** `YYYY-MM-DDTHH:MMZ` matches `%Y-%m-%dT%H:%MZ` without backtracking. */
  lemma MatchMinuteZ(s: string)
    requires |s| == 17 && DateShape(s) && Field(s, 11, Hour) && s[13] == ':' && Field(s, 14, Minute)
    requires s[16] == 'Z'
    ensures MatchFrom(MinuteZ, s, 0) == Some(Captures(MinuteZGroups(s), 17))
  {
    MatchClockMinuteZ(s, 11);
    var f := [Hour] + ([Lit(':')] + ([Minute] + ([Lit('Z')] + [])));
    var gs := [s[11..13]] + ([s[13..14]] + ([s[14..16]] + ([s[16..17]] + [])));
    Nest6(s[0..4], s[4..5], s[5..7], s[7..8], s[8..10], s[10..11], gs);
    MatchDateThen(s, f, Captures(gs, 17), MinuteZ, MinuteZGroups(s));
  }

  /** `.`, `k` digits and the final `Z` at `j`. */
  lemma MatchFractionEnd(s: string, j: nat, k: nat)
    requires 1 <= k <= 6 && |s| == j + 2 + k && s[j] == '.' && AllDigits(s[j + 1..j + 1 + k]) && s[j + 1 + k] == 'Z'
    ensures MatchFrom([Lit('.')] + ([Fraction] + ([Lit('Z')] + [])), s, j) ==
      Some(Captures([s[j..j + 1]] + ([s[j + 1..j + 1 + k]] + ([s[j + 1 + k..j + 2 + k]] + [])), |s|))
  {
    var r := Captures([], |s|);
    assert MatchFrom([], s, |s|) == Some(r);
    LitStep('Z', [], s, j + 1 + k, r);
    MatchDotFraction(s, j, k, [Lit('Z')] + [], Captures([s[j + 1 + k..j + 2 + k]] + [], |s|));
  }

  /** `HH:MM:SS.` and `k` digits and `Z` at `j`, the end of a timestamp with a fraction. */
  lemma MatchClockFractionZ(s: string, j: nat, k: nat)
    requires 1 <= k <= 6 && |s| == j + 10 + k
    requires Field(s, j, Hour) && s[j + 2] == ':' && Field(s, j + 3, Minute)
    requires s[j + 5] == ':' && Field(s, j + 6, Second) && s[j + 8] == '.'
    requires AllDigits(s[j + 9..j + 9 + k]) && s[j + 9 + k] == 'Z'
    ensures MatchFrom([Hour] + ([Lit(':')] + ([Minute] + ([Lit(':')] + ([Second] + ([Lit('.')] + ([Fraction] + ([Lit('Z')] + []))))))), s, j) ==
      Some(Captures([s[j..j + 2]] + ([s[j + 2..j + 3]] + ([s[j + 3..j + 5]] + ([s[j + 5..j + 6]] + ([s[j + 6..j + 8]] +
        ([s[j + 8..j + 9]] + ([s[j + 9..j + 9 + k]] + ([s[j + 9 + k..j + 10 + k]] + []))))))), |s|))
  {
    var e := j + 9 + k;
    MatchSecondFractionZ(s, j + 5, k);
    var f := [Lit(':')] + ([Second] + ([Lit('.')] + ([Fraction] + ([Lit('Z')] + []))));
    var r := Captures([s[j + 5..j + 6]] + ([s[j + 6..j + 8]] + ([s[j + 8..j + 9]] + ([s[j + 9..e]] + ([s[e..e + 1]] + [])))), |s|);
    MatchHourMinute(s, j, f, r);
  }

  /** `:SS.` and `k` digits and `Z` at `j`. */
  lemma MatchSecondFractionZ(s: string, j: nat, k: nat)
    requires 1 <= k <= 6 && |s| == j + 5 + k
    requires s[j] == ':' && Field(s, j + 1, Second) && s[j + 3] == '.'
    requires AllDigits(s[j + 4..j + 4 + k]) && s[j + 4 + k] == 'Z'
    ensures MatchFrom([Lit(':')] + ([Second] + ([Lit('.')] + ([Fraction] + ([Lit('Z')] + [])))), s, j) ==
      Some(Captures([s[j..j + 1]] + ([s[j + 1..j + 3]] + ([s[j + 3..j + 4]] + ([s[j + 4..j + 4 + k]] +
        ([s[j + 4 + k..j + 5 + k]] + [])))), |s|))
  {
    var e := j + 4 + k;
    MatchFractionEnd(s, j + 3, k);
    var f := [Lit('.')] + ([Fraction] + ([Lit('Z')] + []));
    var r := Captures([s[j + 3..j + 4]] + ([s[j + 4..e]] + ([s[e..e + 1]] + [])), |s|);
    MatchColonSecond(s, j, f, r);
  }

  /** The groups of `YYYY-MM-DDTHH:MM:SS.` + `k` digits + `Z` matched by `%Y-%m-%dT%H:%M:%S.%fZ`. */
  function FractionZGroups(s: string, k: nat): seq<string>
    requires |s| == 21 + k
  {
    [s[0..4]] + ([s[4..5]] + ([s[5..7]] + ([s[7..8]] + ([s[8..10]] + ([s[10..11]] +
      ([s[11..13]] + ([s[13..14]] + ([s[14..16]] + ([s[16..17]] + ([s[17..19]] + ([s[19..20]] +
      ([s[20..20 + k]] + ([s[20 + k..21 + k]] + [])))))))))))))
  }

  /** A timestamp with a `k`-digit fraction matches `%Y-%m-%dT%H:%M:%S.%fZ` without backtracking. */
  lemma MatchFractionZ(s: string, k: nat)
    requires 1 <= k <= 6 && |s| == 21 + k && DateShape(s)
    requires Field(s, 11, Hour) && s[13] == ':' && Field(s, 14, Minute)
    requires s[16] == ':' && Field(s, 17, Second) && s[19] == '.'
    requires AllDigits(s[20..20 + k]) && s[20 + k] == 'Z'
    ensures MatchFrom(FractionZ, s, 0) == Some(Captures(FractionZGroups(s, k), |s|))
  {
    MatchClockFractionZ(s, 11, k);
    var f := [Hour] + ([Lit(':')] + ([Minute] + ([Lit(':')] + ([Second] + ([Lit('.')] + ([Fraction] + ([Lit('Z')] + [])))))));
    var gs := [s[11..13]] + ([s[13..14]] + ([s[14..16]] + ([s[16..17]] + ([s[17..19]] +
      ([s[19..20]] + ([s[20..20 + k]] + ([s[20 + k..21 + k]] + [])))))));
    FractionZNested();
    FractionZGroupsNested(s, k, gs);
    MatchDateThen(s, f, Captures(gs, |s|), FractionZ, FractionZGroups(s, k));
  }

  lemma FractionZNested()
    ensures FractionZ == DateT + ([Hour] + ([Lit(':')] + ([Minute] + ([Lit(':')] + ([Second] + ([Lit('.')] + ([Fraction] + ([Lit('Z')] + []))))))))
  {
    Nest8(Hour, Lit(':'), Minute, Lit(':'), Second, Lit('.'), Fraction, Lit('Z'));
  }

  lemma FractionZGroupsNested(s: string, k: nat, gs: seq<string>)
    requires |s| == 21 + k
    requires gs == [s[11..13]] + ([s[13..14]] + ([s[14..16]] + ([s[16..17]] + ([s[17..19]] +
      ([s[19..20]] + ([s[20..20 + k]] + ([s[20 + k..21 + k]] + [])))))))
    ensures FractionZGroups(s, k) == [s[0..4], s[4..5], s[5..7], s[7..8], s[8..10], s[10..11]] + gs
  {
    Nest6(s[0..4], s[4..5], s[5..7], s[7..8], s[8..10], s[10..11], gs);
  }

  // ---------------------------------------------------------------------------
  // Reading back the GitHub timestamp
  // ---------------------------------------------------------------------------

  lemma PadField(s: string, j: nat, v: nat)
    requires v < 100 && j + 2 <= |s| && s[j..j + 2] == Pad(v, 2)
    ensures IsDigit(s[j]) && IsDigit(s[j + 1]) && TwoDigitValue(s, j) == v
  {
    PadTwo(v);
    TwoDigitsValue(Pad(v, 2));
    assert s[j] == s[j..j + 2][0] && s[j + 1] == s[j..j + 2][1];
  }

  lemma PadYear(s: string, v: nat)
    requires v < 10000 && 4 <= |s| && s[0..4] == Pad(v, 4)
    ensures YearField(s, 0)
  {
    PadDigits(v, 4);
    assert forall k :: 0 <= k < 4 ==> s[k] == s[0..4][k];
  }

  /** `FormatGithub` output has the shape `%Y-%m-%dT%H:%M:%SZ` matches. */
  lemma GithubShape(dt: DateTime)
    requires Valid(dt)
    ensures var s := FormatGithub(dt);
      |s| == 20 && DateShape(s) && Field(s, 11, Hour) && s[13] == ':' && Field(s, 14, Minute)
      && s[16] == ':' && Field(s, 17, Second) && s[19] == 'Z'
  {
    var s := FormatGithub(dt);
    FormatGithubLayout(dt);
    PadYear(s, dt.year);
    PadField(s, 5, dt.month);
    PadField(s, 8, dt.day);
    PadField(s, 11, dt.hour);
    PadField(s, 14, dt.minute);
    PadField(s, 17, dt.second);
  }

  /** Zero-padded groups convert back to the fields they spell. */
  lemma ConvertPadded(gs: seq<string>, dt: DateTime)
    requires Valid(dt) && |gs| == |SecondZ|
    requires gs[0] == Pad(dt.year, 4) && gs[2] == Pad(dt.month, 2) && gs[4] == Pad(dt.day, 2)
    requires gs[6] == Pad(dt.hour, 2) && gs[8] == Pad(dt.minute, 2) && gs[10] == Pad(dt.second, 2)
    ensures Convert(SecondZ, gs) == Ok(dt.(microsecond := 0, offset := None))
  {
    FieldsSecondZ(gs);
    NumberPad(dt.year, 4);
    NumberPad(dt.month, 2);
    NumberPad(dt.day, 2);
    NumberPad(dt.hour, 2);
    NumberPad(dt.minute, 2);
    NumberPad(dt.second, 2);
  }

  /** Parsing the GitHub timestamp with `%Y-%m-%dT%H:%M:%SZ` gives back the naive time to the second. */
  lemma ParseGithub(dt: DateTime)
    requires Valid(dt)
    ensures Parse(FormatGithub(dt), SecondZ) == Ok(dt.(microsecond := 0, offset := None))
  {
    var s := FormatGithub(dt);
    GithubShape(dt);
    MatchSecondZ(s);
    FormatGithubLayout(dt);
    var gs := SecondZGroups(s);
    assert gs[0] == s[0..4] && gs[2] == s[5..7] && gs[4] == s[8..10];
    assert gs[6] == s[11..13] && gs[8] == s[14..16] && gs[10] == s[17..19];
    ConvertPadded(gs, dt);
  }

  // ---------------------------------------------------------------------------
  // Reading the three `Z` layouts
  // ---------------------------------------------------------------------------

  /** The value of the four digits at the start of `s`. */
  function YearValue(s: string): nat
    requires YearField(s, 0)
  {
    1000 * DigitValue(s[0]) + 100 * DigitValue(s[1]) + 10 * DigitValue(s[2]) + DigitValue(s[3])
  }

  lemma NumberTwo(s: string, j: nat)
    requires j + 2 <= |s| && IsDigit(s[j]) && IsDigit(s[j + 1])
    ensures Number(s[j..j + 2]) == TwoDigitValue(s, j)
  {
    var t := s[j..j + 2];
    assert t[0] == s[j] && t[1] == s[j + 1];
    TwoDigitsValue(t);
  }

  lemma NumberYear(s: string)
    requires YearField(s, 0)
    ensures Number(s[0..4]) == YearValue(s)
  {
    var t := s[0..4];
    assert forall k :: 0 <= k < 4 ==> t[k] == s[k];
    var t3, t2, t1 := t[..3], t[..2], t[..1];
    assert t3[..2] == t2 && t2[..1] == t1 && t1[..0] == [];
    assert t3[2] == s[2] && t2[1] == s[1] && t1[0] == s[0];
    assert DigitsValue(t1) == DigitValue(s[0]);
    assert DigitsValue(t2) == DigitValue(s[0]) * 10 + DigitValue(s[1]);
    assert DigitsValue(t3) == (DigitValue(s[0]) * 10 + DigitValue(s[1])) * 10 + DigitValue(s[2]);
  }

  /** The date and clock fields `YYYY-MM-DDTHH:MM` spells, before range checks. */
  function ClockFields(s: string, second: nat, micro: nat): DateTime
    requires |s| >= 16 && YearField(s, 0) && IsDigit(s[5]) && IsDigit(s[6]) && IsDigit(s[8]) && IsDigit(s[9])
    requires IsDigit(s[11]) && IsDigit(s[12]) && IsDigit(s[14]) && IsDigit(s[15])
  {
    DateTime(YearValue(s), TwoDigitValue(s, 5), TwoDigitValue(s, 8), TwoDigitValue(s, 11), TwoDigitValue(s, 14),
      second, micro, None)
  }

  lemma NumbersDate(s: string)
    requires |s| >= 16 && YearField(s, 0) && IsDigit(s[5]) && IsDigit(s[6]) && IsDigit(s[8]) && IsDigit(s[9])
    requires IsDigit(s[11]) && IsDigit(s[12]) && IsDigit(s[14]) && IsDigit(s[15])
    ensures Number(s[0..4]) == YearValue(s) && Number(s[5..7]) == TwoDigitValue(s, 5)
    ensures Number(s[8..10]) == TwoDigitValue(s, 8) && Number(s[11..13]) == TwoDigitValue(s, 11)
    ensures Number(s[14..16]) == TwoDigitValue(s, 14)
  {
    NumberYear(s);
    NumberTwo(s, 5);
    NumberTwo(s, 8);
    NumberTwo(s, 11);
    NumberTwo(s, 14);
  }

  lemma FieldsOfMinuteZ(s: string)
    requires |s| == 17 && DateShape(s) && Field(s, 11, Hour) && Field(s, 14, Minute)
    ensures Fields(MinuteZ, MinuteZGroups(s)) == ClockFields(s, 0, 0)
  {
    var gs := MinuteZGroups(s);
    FieldsMinuteZ(gs);
    NumbersDate(s);
    assert gs[0] == s[0..4] && gs[2] == s[5..7] && gs[4] == s[8..10] && gs[6] == s[11..13] && gs[8] == s[14..16];
  }

  /** `%Y-%m-%dT%H:%MZ` on a string of its shape reads the fields it spells, seconds zero. */
  lemma ParseMinuteZ(s: string)
    requires |s| == 17 && DateShape(s) && Field(s, 11, Hour) && s[13] == ':' && Field(s, 14, Minute)
    requires s[16] == 'Z'
    ensures Parse(s, MinuteZ) == Checked(ClockFields(s, 0, 0))
  {
    MatchMinuteZ(s);
    FieldsOfMinuteZ(s);
  }

  lemma FieldsOfSecondZ(s: string)
    requires |s| == 20 && DateShape(s) && Field(s, 11, Hour) && Field(s, 14, Minute) && Field(s, 17, Second)
    ensures Fields(SecondZ, SecondZGroups(s)) == ClockFields(s, TwoDigitValue(s, 17), 0)
  {
    var gs := SecondZGroups(s);
    FieldsSecondZ(gs);
    NumbersDate(s);
    NumberTwo(s, 17);
    assert gs[0] == s[0..4] && gs[2] == s[5..7] && gs[4] == s[8..10] && gs[6] == s[11..13] && gs[8] == s[14..16];
    assert gs[10] == s[17..19];
  }

  /** `%Y-%m-%dT%H:%M:%SZ` on a string of its shape reads the fields it spells. */
  lemma ParseSecondZ(s: string)
    requires |s| == 20 && DateShape(s) && Field(s, 11, Hour) && s[13] == ':' && Field(s, 14, Minute)
    requires s[16] == ':' && Field(s, 17, Second) && s[19] == 'Z'
    ensures Parse(s, SecondZ) == Checked(ClockFields(s, TwoDigitValue(s, 17), 0))
  {
    MatchSecondZ(s);
    FieldsOfSecondZ(s);
  }

  lemma FieldsOfFractionZ(s: string, k: nat)
    requires 1 <= k <= 6 && |s| == 21 + k && DateShape(s)
    requires Field(s, 11, Hour) && Field(s, 14, Minute) && Field(s, 17, Second)
    requires AllDigits(s[20..20 + k])
    ensures Fields(FractionZ, FractionZGroups(s, k)) ==
      ClockFields(s, TwoDigitValue(s, 17), DigitsValue(s[20..20 + k]) * Power10(6 - k))
  {
    var gs := FractionZGroups(s, k);
    FieldsFractionZ(gs);
    NumbersDate(s);
    NumberTwo(s, 17);
    assert gs[0] == s[0..4] && gs[2] == s[5..7] && gs[4] == s[8..10] && gs[6] == s[11..13] && gs[8] == s[14..16];
    assert gs[10] == s[17..19] && gs[12] == s[20..20 + k];
  }

  /** `%Y-%m-%dT%H:%M:%S.%fZ` reads a `k`-digit fraction as that many leading digits of the microseconds. */
  lemma ParseFractionZ(s: string, k: nat)
    requires 1 <= k <= 6 && |s| == 21 + k && DateShape(s)
    requires Field(s, 11, Hour) && s[13] == ':' && Field(s, 14, Minute)
    requires s[16] == ':' && Field(s, 17, Second) && s[19] == '.'
    requires AllDigits(s[20..20 + k]) && s[20 + k] == 'Z'
    ensures Parse(s, FractionZ) == Checked(ClockFields(s, TwoDigitValue(s, 17), DigitsValue(s[20..20 + k]) * Power10(6 - k)))
  {
    MatchFractionZ(s, k);
    FieldsOfFractionZ(s, k);
  }
}
