/**
 * Model of `CommitMatcher` (commit_matcher.py): CVE identifier extraction, the
 * hand-tuned point system with its explanation list, filtering with a stable
 * descending sort, and top-N truncation.
 */
module CommitMatcher {

  import opened Wrappers
  import opened Text

  // ---------------------------------------------------------------------------
  // Data model
  // ---------------------------------------------------------------------------

  /**
   * One entry of `matched_patterns`. The source renders them as the strings
   * "直接提到CVE: <target>", "修复关键词: <kw>", "排除关键词: <kw>", "消息过短" and
   * "提到其他CVE: <ids joined by ', '>"; the last one joins a Python set, so the
   * model keeps the set itself.
   */
  datatype Pattern =
    | DirectMention(target: string)
    | FixKeyword(keyword: string)
    | ExcludeKeyword(keyword: string)
    | MessageTooShort
    | OtherCves(ids: set<string>)

  /** `CommitMatchResult`. */
  datatype CommitMatchResult = CommitMatchResult(
    sha: string,
    message: string,
    author: string,
    date: string,
    score: int,
    matchedPatterns: seq<Pattern>,
    matchedCve: bool)

  /** The parts of a forge commit object that `analyze_commit` reads; a missing key is `None`. */
  datatype AuthorInfo = AuthorInfo(name: Option<string>, date: Option<string>)
  datatype CommitInfo = CommitInfo(message: Option<string>, author: Option<AuthorInfo>)
  datatype RawCommit = RawCommit(sha: Option<string>, commit: Option<CommitInfo>)

  // ---------------------------------------------------------------------------
  // Constants of the point system
  // ---------------------------------------------------------------------------

  const FixKeywords: seq<string> := [
    "fix", "fixes", "fixed", "fixing",
    "patch", "patched", "patching",
    "resolve", "resolves", "resolved",
    "address", "addresses", "addressed",
    "repair", "repaired",
    "correct", "corrected",
    "security",
    "vulnerability", "vulnerabilities",
    "exploit",
    "buffer overflow", "use after free", "null pointer",
    "injection", "xss", "csrf",
    "memory leak", "memory corruption",
    "dos", "denial of service",
    "privilege escalation",
    "authentication bypass",
    "directory traversal",
    "remote code execution", "rce",
    "sql injection",
    "cross-site scripting"
  ]

  const ExcludeKeywords: seq<string> := [
    "test", "tests", "testing",
    "doc", "docs", "documentation",
    "readme",
    "comment", "comments",
    "typo", "typos",
    "style", "format", "formatting",
    "refactor", "refactoring",
    "cleanup",
    "update version",
    "bump version",
    "merge"
  ]

  /**
   * The two CVE patterns `CVE-\d{4}-\d{4,7}` and `cve-\d{4}-\d{4,7}`, both
   * compiled case-insensitively; each is represented by its literal prefix.
   */
  const CvePatterns: seq<string> := ["CVE-", "cve-"]

  const DirectPoints := 100
  const FixPointsEach := 10
  const FixCap := 50
  const ExcludePointsEach := 5
  const ExcludeCap := 30
  const ShortLength := 20
  const ShortPenalty := 10
  const OtherPoints := 20

  const DefaultMinScore := 0
  const DefaultTopN := 10

  // ---------------------------------------------------------------------------
  // CVE identifiers: the `re.findall` scan of one pattern
  // ---------------------------------------------------------------------------

  /** Number of consecutive digits of `s` from index `j`, taking at most `cap` (a greedy `\d{..cap}`). */
  function DigitRun(s: string, j: nat, cap: nat): (n: nat)
    requires j <= |s|
    ensures n <= cap && j + n <= |s|
    decreases cap
  {
    if cap == 0 || j == |s| || !IsDigit(s[j]) then 0 else 1 + DigitRun(s, j + 1, cap - 1)
  }

  lemma {:induction false} DigitRunDigits(s: string, j: nat, cap: nat)
    requires j <= |s|
    ensures AllDigits(s[j..j + DigitRun(s, j, cap)])
    decreases cap
  {
    if !(cap == 0 || j == |s| || !IsDigit(s[j])) {
      DigitRunDigits(s, j + 1, cap - 1);
      assert s[j..j + DigitRun(s, j, cap)] == [s[j]] + s[j + 1..j + 1 + DigitRun(s, j + 1, cap - 1)];
    }
  }

  /** From index `k` on, `prefix` agrees with the text at `i` up to ASCII case (the `re.IGNORECASE` test). */
  predicate FoldMatch(prefix: string, s: string, i: nat, k: nat)
    requires k <= |prefix| && i + |prefix| <= |s|
    decreases |prefix| - k
  {
    k == |prefix| || (AsciiLower(s[i + k]) == AsciiLower(prefix[k]) && FoldMatch(prefix, s, i, k + 1))
  }

  lemma {:induction false} FoldMatchFrom(prefix: string, s: string, i: nat, k: nat)
    requires k <= |prefix| && i + |prefix| <= |s|
    ensures FoldMatch(prefix, s, i, k) <==> Lower(s[i + k..i + |prefix|]) == Lower(prefix[k..])
    decreases |prefix| - k
  {
    if k < |prefix| {
      FoldMatchFrom(prefix, s, i, k + 1);
      var a, b := s[i + k..i + |prefix|], prefix[k..];
      assert a[1..] == s[i + k + 1..i + |prefix|] && b[1..] == prefix[k + 1..];
      assert Lower(a)[1..] == Lower(a[1..]) && Lower(b)[1..] == Lower(b[1..]);
      if Lower(a) == Lower(b) {
        assert Lower(a)[0] == Lower(b)[0];
      }
    }
  }

  /** The case-insensitive prefix test is the comparison of the lower-cased texts. */
  lemma FoldMatchLower(prefix: string, s: string, i: nat)
    requires i + |prefix| <= |s|
    ensures FoldMatch(prefix, s, i, 0) <==> Lower(s[i..i + |prefix|]) == Lower(prefix)
  {
    FoldMatchFrom(prefix, s, i, 0);
    assert prefix[0..] == prefix;
  }

  /** The pattern `prefix\d{4}-\d{4,7}` matches at index `i`; `Some(n)` gives the greedy match length. */
  function MatchAt(prefix: string, s: string, i: nat): (r: Option<nat>)
    requires i <= |s|
    ensures r.Some? ==> i + r.value <= |s| && |prefix| + 9 <= r.value <= |prefix| + 12
  {
    var p := |prefix|;
    if i + p + 9 <= |s|
       && FoldMatch(prefix, s, i, 0)
       && DigitRun(s, i + p, 4) == 4
       && s[i + p + 4] == '-'
       && DigitRun(s, i + p + 5, 7) >= 4
    then Some(p + 5 + DigitRun(s, i + p + 5, 7))
    else None
  }

  /** `re.findall` from index `i`: leftmost, non-overlapping matches, scanning left to right. */
  function FindAll(prefix: string, s: string, i: nat): (ms: seq<string>)
    requires i <= |s|
    decreases |s| - i
  {
    if i == |s| then []
    else match MatchAt(prefix, s, i)
      case Some(n) => [s[i..i + n]] + FindAll(prefix, s, i + n)
      case None => FindAll(prefix, s, i + 1)
  }

  lemma FindAllStep(prefix: string, s: string, i: nat, n: nat)
    requires i < |s| && MatchAt(prefix, s, i) == Some(n)
    ensures i + n <= |s| && FindAll(prefix, s, i) == [s[i..i + n]] + FindAll(prefix, s, i + n)
  {
  }

  lemma FindAllSkip(prefix: string, s: string, i: nat)
    requires i < |s| && MatchAt(prefix, s, i) == None
    ensures FindAll(prefix, s, i) == FindAll(prefix, s, i + 1)
  {
  }

  function UpperAll(ms: seq<string>): set<string>
  {
    set m | m in ms :: Upper(m)
  }

  /** Union of the upper-cased matches of the given patterns (the body of `extract_cve_ids`). */
  function PatternIds(patterns: seq<string>, text: string): set<string>
  {
    if patterns == [] then {}
    else PatternIds(patterns[..|patterns| - 1], text) + UpperAll(FindAll(patterns[|patterns| - 1], text, 0))
  }

  /** A canonical identifier: `CVE-` + 4 digits + `-` + 4 to 7 digits. */
  predicate WellFormedCveId(id: string)
  {
    13 <= |id| <= 16 && id[..4] == "CVE-" && AllDigits(id[4..8]) && id[8] == '-' && AllDigits(id[9..])
  }

  /** The set that `extract_cve_ids(text)` returns. */
  function CveIds(text: string): (ids: set<string>)
    ensures forall id :: id in ids ==> WellFormedCveId(id)
  {
    PatternIdsWellFormed(CvePatterns, text);
    PatternIds(CvePatterns, text)
  }

  lemma CvePrefixUpper(w: string)
    requires Lower(w) == "cve-"
    ensures Upper(w) == "CVE-"
  {
    var l := Lower(w);
    assert |w| == 4;
    assert l[0] == AsciiLower(w[0]) == 'c' && l[1] == AsciiLower(w[1]) == 'v';
    assert l[2] == AsciiLower(w[2]) == 'e' && l[3] == AsciiLower(w[3]) == '-';
  }

  lemma MatchWellFormed(prefix: string, s: string, i: nat)
    requires prefix == "CVE-" || prefix == "cve-"
    requires i <= |s| && MatchAt(prefix, s, i).Some?
    ensures WellFormedCveId(Upper(s[i..i + MatchAt(prefix, s, i).value]))
  {
    var n := MatchAt(prefix, s, i).value;
    assert |prefix| == 4;
    MatchedShape(prefix, s, i, n);
  }

  /** The conditions of a match at `i`, read back as the shape of the matched text. */
  lemma MatchedShape(prefix: string, s: string, i: nat, n: nat)
    requires (prefix == "CVE-" || prefix == "cve-") && i + 13 <= |s|
    requires FoldMatch(prefix, s, i, 0) && DigitRun(s, i + 4, 4) == 4 && s[i + 8] == '-'
    requires DigitRun(s, i + 9, 7) >= 4 && n == 9 + DigitRun(s, i + 9, 7)
    ensures WellFormedCveId(Upper(s[i..i + n]))
  {
    assert Lower(s[i..i + 4]) == "cve-" by {
      assert Lower(prefix) == "cve-";
      FoldMatchLower(prefix, s, i);
    }
    DigitRunDigits(s, i + 4, 4);
    DigitRunDigits(s, i + 9, 7);
    ShapeAt(s, i, n);
  }

  lemma ShapeAt(s: string, i: nat, n: nat)
    requires i + n <= |s| && 13 <= n <= 16 && Lower(s[i..i + 4]) == "cve-"
    requires AllDigits(s[i + 4..i + 8]) && s[i + 8] == '-' && AllDigits(s[i + 9..i + n])
    ensures WellFormedCveId(Upper(s[i..i + n]))
  {
    var m := s[i..i + n];
    assert m[..4] == s[i..i + 4];
    assert m[4..8] == s[i + 4..i + 8] by {
      assert |m[4..8]| == 4 == |s[i + 4..i + 8]|;
      assert forall k :: 0 <= k < 4 ==> m[4..8][k] == m[4 + k] == s[i + 4 + k] == s[i + 4..i + 8][k];
    }
    assert m[9..] == s[i + 9..i + n];
    ShapeWellFormed(m);
  }

  /** The upper-cased text of any match has the canonical shape. */
  lemma ShapeWellFormed(m: string)
    requires 13 <= |m| <= 16 && Lower(m[..4]) == "cve-" && AllDigits(m[4..8]) && m[8] == '-' && AllDigits(m[9..])
    ensures WellFormedCveId(Upper(m))
  {
    var u := Upper(m);
    CvePrefixUpper(m[..4]);
    UpperSlice(m, 0, 4);
    UpperSlice(m, 4, 8);
    UpperSlice(m, 9, |m|);
    UpperDigits(m[4..8]);
    UpperDigits(m[9..]);
    assert u[..4] == u[0..4] && m[..4] == m[0..4];
    assert u[9..] == u[9..|m|] && m[9..] == m[9..|m|];
  }

  lemma {:induction false} FindAllWellFormed(prefix: string, s: string, i: nat)
    requires prefix == "CVE-" || prefix == "cve-"
    requires i <= |s|
    ensures forall m :: m in FindAll(prefix, s, i) ==> WellFormedCveId(Upper(m))
    decreases |s| - i
  {
    if i < |s| {
      var r := MatchAt(prefix, s, i);
      if r.Some? {
        var n := r.value;
        MatchWellFormed(prefix, s, i);
        FindAllWellFormed(prefix, s, i + n);
        FindAllStep(prefix, s, i, n);
        ConsWellFormed(s[i..i + n], FindAll(prefix, s, i + n));
      } else {
        FindAllWellFormed(prefix, s, i + 1);
        FindAllSkip(prefix, s, i);
      }
    }
  }

  lemma ConsWellFormed(x: string, rest: seq<string>)
    requires WellFormedCveId(Upper(x)) && forall m :: m in rest ==> WellFormedCveId(Upper(m))
    ensures forall m :: m in [x] + rest ==> WellFormedCveId(Upper(m))
  {
  }

  lemma {:induction false} PatternIdsWellFormed(patterns: seq<string>, text: string)
    requires forall k :: 0 <= k < |patterns| ==> patterns[k] == "CVE-" || patterns[k] == "cve-"
    ensures forall id :: id in PatternIds(patterns, text) ==> WellFormedCveId(id)
  {
    if patterns != [] {
      PatternIdsWellFormed(patterns[..|patterns| - 1], text);
      FindAllWellFormed(patterns[|patterns| - 1], text, 0);
      var ms := FindAll(patterns[|patterns| - 1], text, 0);
      assert forall id :: id in UpperAll(ms) ==> exists m :: m in ms && id == Upper(m);
    }
  }

  lemma MatchAtSameFold(p1: string, p2: string, s: string, i: nat)
    requires Lower(p1) == Lower(p2) && i <= |s|
    ensures MatchAt(p1, s, i) == MatchAt(p2, s, i)
  {
    assert |p1| == |Lower(p1)| == |p2|;
    if i + |p1| <= |s| {
      FoldMatchLower(p1, s, i);
      FoldMatchLower(p2, s, i);
    }
  }

  /** A case-insensitive pattern depends on its prefix only through the prefix's lower-cased form. */
  lemma {:induction false} FindAllSameFold(p1: string, p2: string, s: string, i: nat)
    requires Lower(p1) == Lower(p2) && i <= |s|
    ensures FindAll(p1, s, i) == FindAll(p2, s, i)
    decreases |s| - i, 1
  {
    if i < |s| {
      MatchAtSameFold(p1, p2, s, i);
      var r := MatchAt(p1, s, i);
      if r.Some? {
        SameFoldMatch(p1, p2, s, i, r.value);
      } else {
        SameFoldSkip(p1, p2, s, i);
      }
    }
  }

  lemma {:induction false} SameFoldMatch(p1: string, p2: string, s: string, i: nat, n: nat)
    requires Lower(p1) == Lower(p2) && i < |s| && MatchAt(p1, s, i) == Some(n) && MatchAt(p2, s, i) == Some(n)
    ensures FindAll(p1, s, i) == FindAll(p2, s, i)
    decreases |s| - i, 0
  {
    FindAllSameFold(p1, p2, s, i + n);
    SameFoldCons(p1, p2, s, i, n);
  }

  lemma SameFoldCons(p1: string, p2: string, s: string, i: nat, n: nat)
    requires i < |s| && MatchAt(p1, s, i) == Some(n) && MatchAt(p2, s, i) == Some(n)
    requires FindAll(p1, s, i + n) == FindAll(p2, s, i + n)
    ensures FindAll(p1, s, i) == FindAll(p2, s, i)
  {
    FindAllStep(p1, s, i, n);
    FindAllStep(p2, s, i, n);
  }

  lemma {:induction false} SameFoldSkip(p1: string, p2: string, s: string, i: nat)
    requires Lower(p1) == Lower(p2) && i < |s| && MatchAt(p1, s, i) == None && MatchAt(p2, s, i) == None
    ensures FindAll(p1, s, i) == FindAll(p2, s, i)
    decreases |s| - i, 0
  {
    FindAllSameFold(p1, p2, s, i + 1);
    FindAllSkip(p1, s, i);
    FindAllSkip(p2, s, i);
  }

  /** So `extract_cve_ids` is the upper-cased matches of one case-insensitive scan. */
  lemma CveIdsSingleScan(text: string)
    ensures CveIds(text) == UpperAll(FindAll("CVE-", text, 0))
  {
    assert Lower("CVE-") == Lower("cve-");
    FindAllSameFold("CVE-", "cve-", text, 0);
    var upper := UpperAll(FindAll("CVE-", text, 0));
    assert CvePatterns[..1] == ["CVE-"] && ["CVE-"][..0] == [];
    assert PatternIds(["CVE-"], text) == upper;
    assert PatternIds(CvePatterns, text) == PatternIds(["CVE-"], text) + UpperAll(FindAll("cve-", text, 0));
  }

  lemma UpperUpper(s: string)
    ensures Upper(Upper(s)) == Upper(s)
  {
    assert forall k :: 0 <= k < |s| ==> AsciiUpper(AsciiUpper(s[k])) == AsciiUpper(s[k]);
  }

  /** `t` is `s` with its ASCII letters upper-cased, stated index by index. */
  predicate UpperOf(t: string, s: string)
  {
    |t| == |s| && forall k :: 0 <= k < |s| ==> t[k] == AsciiUpper(s[k])
  }

  lemma {:induction false} DigitRunUpper(s: string, t: string, j: nat, cap: nat)
    requires UpperOf(t, s) && j <= |s|
    ensures DigitRun(t, j, cap) == DigitRun(s, j, cap)
    decreases cap
  {
    if j < |s| && cap > 0 {
      assert t[j] == AsciiUpper(s[j]);
      DigitRunUpper(s, t, j + 1, cap - 1);
    }
  }

  lemma {:induction false} FoldMatchUpper(prefix: string, s: string, t: string, i: nat, k: nat)
    requires UpperOf(t, s) && k <= |prefix| && i + |prefix| <= |s|
    ensures FoldMatch(prefix, t, i, k) == FoldMatch(prefix, s, i, k)
    decreases |prefix| - k
  {
    if k < |prefix| {
      assert t[i + k] == AsciiUpper(s[i + k]);
      FoldMatchUpper(prefix, s, t, i, k + 1);
    }
  }

  lemma MatchAtUpper(prefix: string, s: string, t: string, i: nat)
    requires UpperOf(t, s) && i <= |s|
    ensures MatchAt(prefix, t, i) == MatchAt(prefix, s, i)
  {
    var p := |prefix|;
    if i + p + 9 <= |s| {
      FoldMatchUpper(prefix, s, t, i, 0);
      DigitRunUpper(s, t, i + p, 4);
      DigitRunUpper(s, t, i + p + 5, 7);
      assert t[i + p + 4] == AsciiUpper(s[i + p + 4]);
    }
  }

  lemma UpperOfSlice(s: string, t: string, a: nat, b: nat)
    requires UpperOf(t, s) && a <= b <= |s|
    ensures t[a..b] == Upper(s[a..b])
  {
    assert forall k :: 0 <= k < b - a ==> t[a..b][k] == t[a + k];
  }

  function UpperEach(ms: seq<string>): seq<string>
  {
    if ms == [] then [] else [Upper(ms[0])] + UpperEach(ms[1..])
  }

  lemma UpperEachCons(m: string, rest: seq<string>)
    ensures UpperEach([m] + rest) == [Upper(m)] + UpperEach(rest)
  {
    assert ([m] + rest)[1..] == rest;
  }

  /** Case-insensitivity: scanning the upper-cased text finds the upper-cased matches. */
  lemma FindAllUpper(prefix: string, s: string, i: nat)
    requires i <= |s|
    ensures FindAll(prefix, Upper(s), i) == UpperEach(FindAll(prefix, s, i))
  {
    FindAllUpperOf(prefix, s, Upper(s), i);
  }

  lemma {:induction false} FindAllUpperOf(prefix: string, s: string, t: string, i: nat)
    requires UpperOf(t, s) && i <= |s|
    ensures FindAll(prefix, t, i) == UpperEach(FindAll(prefix, s, i))
    decreases |s| - i, 1
  {
    if i < |s| {
      var r := MatchAt(prefix, s, i);
      MatchAtUpper(prefix, s, t, i);
      if r.Some? {
        FindAllUpperMatch(prefix, s, t, i, r.value);
      } else {
        FindAllUpperSkip(prefix, s, t, i);
      }
    }
  }

  /** One match of the scan, then the rest of it. */
  lemma {:induction false} FindAllUpperMatch(prefix: string, s: string, t: string, i: nat, n: nat)
    requires UpperOf(t, s) && i < |s| && MatchAt(prefix, s, i) == Some(n) && MatchAt(prefix, t, i) == Some(n)
    ensures FindAll(prefix, t, i) == UpperEach(FindAll(prefix, s, i))
    decreases |s| - i, 0
  {
    FindAllUpperOf(prefix, s, t, i + n);
    UpperOfSlice(s, t, i, i + n);
    FindAllUpperCons(prefix, s, t, i, n);
  }

  lemma FindAllUpperCons(prefix: string, s: string, t: string, i: nat, n: nat)
    requires i < |s| == |t| && MatchAt(prefix, s, i) == Some(n) && MatchAt(prefix, t, i) == Some(n)
    requires t[i..i + n] == Upper(s[i..i + n])
    requires FindAll(prefix, t, i + n) == UpperEach(FindAll(prefix, s, i + n))
    ensures FindAll(prefix, t, i) == UpperEach(FindAll(prefix, s, i))
  {
    FindAllStep(prefix, s, i, n);
    FindAllStep(prefix, t, i, n);
    UpperEachCons(s[i..i + n], FindAll(prefix, s, i + n));
  }

  lemma {:induction false} FindAllUpperSkip(prefix: string, s: string, t: string, i: nat)
    requires UpperOf(t, s) && i < |s| && MatchAt(prefix, s, i) == None && MatchAt(prefix, t, i) == None
    ensures FindAll(prefix, t, i) == UpperEach(FindAll(prefix, s, i))
    decreases |s| - i, 0
  {
    FindAllUpperOf(prefix, s, t, i + 1);
    FindAllSkip(prefix, s, i);
    FindAllSkip(prefix, t, i);
  }

  lemma {:induction false} UpperAllUpperEach(ms: seq<string>)
    ensures UpperAll(UpperEach(ms)) == UpperAll(ms)
  {
    if ms != [] {
      UpperAllUpperEach(ms[1..]);
      UpperUpper(ms[0]);
      assert ms == [ms[0]] + ms[1..];
      assert UpperAll(ms) == {Upper(ms[0])} + UpperAll(ms[1..]);
      assert UpperAll(UpperEach(ms)) == {Upper(Upper(ms[0]))} + UpperAll(UpperEach(ms[1..]));
    }
  }

  lemma CveIdsIgnoreCase(text: string)
    ensures CveIds(Upper(text)) == CveIds(text)
  {
    CveIdsSingleScan(text);
    CveIdsSingleScan(Upper(text));
    FindAllUpper("CVE-", text, 0);
    UpperAllUpperEach(FindAll("CVE-", text, 0));
  }

  // ---------------------------------------------------------------------------
  // Which identifiers a message yields
  // ---------------------------------------------------------------------------

  /** A match starts at a `c` or `C`. */
  lemma MatchStartsC(s: string, i: nat)
    requires i <= |s|
    ensures MatchAt("CVE-", s, i).Some? ==> i < |s| && AsciiLower(s[i]) == 'c'
  {
    if MatchAt("CVE-", s, i).Some? {
      assert FoldMatch("CVE-", s, i, 0);
    }
  }

  /** No character after the first of a match is a `c` or `C`: the rest is `ve-`, digits and `-`. */
  lemma MatchInterior(s: string, i: nat)
    requires i <= |s| && MatchAt("CVE-", s, i).Some?
    ensures forall j :: i < j < i + MatchAt("CVE-", s, i).value ==> AsciiLower(s[j]) != 'c'
  {
    var n := MatchAt("CVE-", s, i).value;
    var head := s[i..i + 4];
    assert Lower(head) == "cve-" by {
      FoldMatchLower("CVE-", s, i);
      assert Lower("CVE-") == "cve-";
    }
    DigitRunDigits(s, i + 4, 4);
    DigitRunDigits(s, i + 9, 7);
    forall j | i < j < i + n
      ensures AsciiLower(s[j]) != 'c'
    {
      if j < i + 4 {
        assert Lower(head)[j - i] == AsciiLower(s[j]);
      } else if j < i + 8 {
        assert s[i + 4..i + 8][j - i - 4] == s[j];
      } else if j > i + 8 {
        assert s[i + 9..i + n][j - i - 9] == s[j];
      }
    }
  }

  /** Matches never overlap: a match that starts before a match at `j` ends by `j`. */
  lemma MatchesApart(s: string, i: nat, j: nat)
    requires i < j <= |s| && MatchAt("CVE-", s, i).Some? && MatchAt("CVE-", s, j).Some?
    ensures i + MatchAt("CVE-", s, i).value <= j
  {
    MatchStartsC(s, j);
    MatchInterior(s, i);
  }

  /** The scan from `i` collects the text of every match that starts at or after `i`. */
  lemma {:induction false} FindAllReaches(s: string, i: nat, j: nat)
    requires i <= j <= |s| && MatchAt("CVE-", s, j).Some?
    ensures s[j..j + MatchAt("CVE-", s, j).value] in FindAll("CVE-", s, i)
    decreases j - i
  {
    if i == j {
      MatchStartsC(s, j);
      FindAllStep("CVE-", s, j, MatchAt("CVE-", s, j).value);
    } else {
      var next := ScanPast(s, i, j);
      FindAllReaches(s, next, j);
    }
  }

  /** One step of the scan from `i` does not jump over a match at `j > i`, and keeps what follows. */
  lemma ScanPast(s: string, i: nat, j: nat) returns (next: nat)
    requires i < j <= |s| && MatchAt("CVE-", s, j).Some?
    ensures i < next <= j
    ensures forall x :: x in FindAll("CVE-", s, next) ==> x in FindAll("CVE-", s, i)
  {
    MatchStartsC(s, j);
    match MatchAt("CVE-", s, i)
    case Some(m) =>
      MatchesApart(s, i, j);
      FindAllStep("CVE-", s, i, m);
      next := i + m;
    case None =>
      FindAllSkip("CVE-", s, i);
      next := i + 1;
  }

  /** Each text the scan from `i` collects is the text of a match at some position `k >= i`. */
  lemma {:induction false} FindAllElement(s: string, i: nat, m: string) returns (k: nat)
    requires i <= |s| && m in FindAll("CVE-", s, i)
    ensures i <= k <= |s| && MatchAt("CVE-", s, k) == Some(|m|) && m == s[k..k + |m|]
    decreases |s| - i
  {
    FindAllAtEnd(s, i);
    var r := MatchAt("CVE-", s, i);
    if r.Some? && m == s[i..i + r.value] {
      k := i;
    } else {
      var next := FindAllNext(s, i, m);
      k := FindAllElement(s, next, m);
    }
  }

  lemma FindAllAtEnd(s: string, i: nat)
    requires i <= |s|
    ensures FindAll("CVE-", s, i) != [] ==> i < |s|
  {
  }

  /** An element of the scan at `i` that is not the match at `i` is collected further on. */
  lemma FindAllNext(s: string, i: nat, m: string) returns (next: nat)
    requires i < |s| && m in FindAll("CVE-", s, i)
    requires MatchAt("CVE-", s, i).Some? ==> m != s[i..i + MatchAt("CVE-", s, i).value]
    ensures i < next <= |s| && m in FindAll("CVE-", s, next)
  {
    match MatchAt("CVE-", s, i)
    case Some(n) =>
      FindAllStep("CVE-", s, i, n);
      next := i + n;
    case None =>
      FindAllSkip("CVE-", s, i);
      next := i + 1;
  }

  /** Every match in the message, upper-cased, is extracted. */
  lemma MatchExtracted(text: string, j: nat)
    requires j <= |text| && MatchAt("CVE-", text, j).Some?
    ensures Upper(text[j..j + MatchAt("CVE-", text, j).value]) in CveIds(text)
  {
    FindAllReaches(text, 0, j);
    CveIdsSingleScan(text);
  }

  /** `x` is the upper-cased text of a match at `k`. */
  predicate MatchedIdAt(text: string, k: nat, x: string)
  {
    k <= |text| && MatchAt("CVE-", text, k).Some? && x == Upper(text[k..k + MatchAt("CVE-", text, k).value])
  }

  /** Each extracted identifier is the text of a match, upper-cased. */
  lemma ExtractedMatch(text: string, x: string)
    requires x in CveIds(text)
    ensures exists k: nat :: MatchedIdAt(text, k, x)
  {
    CveIdsSingleScan(text);
    var m :| m in FindAll("CVE-", text, 0) && x == Upper(m);
    var k := FindAllElement(text, 0, m);
    assert MatchedIdAt(text, k, x);
  }

  /**
   * The extracted set is exactly the upper-cased texts of the greedy matches
   * at the positions of the message: since matches never overlap, the
   * left-to-right scan misses none of them.
   */
  lemma CveIdsExactly(text: string, x: string)
    ensures x in CveIds(text) <==> exists k: nat :: MatchedIdAt(text, k, x)
  {
    if x in CveIds(text) {
      ExtractedMatch(text, x);
    }
    if exists k: nat :: MatchedIdAt(text, k, x) {
      var k: nat :| MatchedIdAt(text, k, x);
      MatchExtracted(text, k);
    }
  }

  /** A run of exactly `c` digits, ended by the cap, the end of the text or a non-digit, is what `DigitRun` counts. */
  lemma {:induction false} DigitRunExact(s: string, j: nat, c: nat, cap: nat)
    requires j + c <= |s| && c <= cap && AllDigits(s[j..j + c])
    requires c == cap || j + c == |s| || !IsDigit(s[j + c])
    ensures DigitRun(s, j, cap) == c
    decreases c
  {
    if c > 0 {
      assert s[j] == s[j..j + c][0];
      assert s[j + 1..j + c] == s[j..j + c][1..];
      DigitRunExact(s, j + 1, c - 1, cap - 1);
    }
  }

  /** `cve-` in any case, 4 digits, `-` and 4 to 7 digits: an identifier as a message may spell it. */
  predicate SpelledCveId(id: string)
  {
    13 <= |id| <= 16 && Lower(id[..4]) == "cve-" && AllDigits(id[4..8]) && id[8] == '-' && AllDigits(id[9..])
  }

  /** A piece of a text found at `j` is the same piece of the text. */
  lemma SliceOfSlice(s: string, j: nat, id: string, a: nat, b: nat)
    requires j + |id| <= |s| && s[j..j + |id|] == id && a <= b <= |id|
    ensures s[j + a..j + b] == id[a..b]
  {
    forall k | 0 <= k < b - a
      ensures s[j + a..j + b][k] == id[a..b][k]
    {
      assert s[j..j + |id|][a + k] == s[j + a + k];
    }
  }

  /** A spelled identifier at `j` that no further digit follows is a match of its length. */
  lemma MatchAtText(s: string, j: nat, id: string)
    requires j + |id| <= |s| && s[j..j + |id|] == id && SpelledCveId(id)
    requires |id| == 16 || j + |id| == |s| || !IsDigit(s[j + |id|])
    ensures MatchAt("CVE-", s, j) == Some(|id|)
  {
    var n := |id|;
    assert FoldMatch("CVE-", s, j, 0) by {
      SliceOfSlice(s, j, id, 0, 4);
      FoldMatchLower("CVE-", s, j);
      assert Lower("CVE-") == "cve-";
    }
    assert DigitRun(s, j + 4, 4) == 4 by {
      SliceOfSlice(s, j, id, 4, 8);
      DigitRunExact(s, j + 4, 4, 4);
    }
    assert s[j + 8] == '-' by {
      SliceOfSlice(s, j, id, 8, 9);
    }
    assert DigitRun(s, j + 9, 7) == n - 9 by {
      SliceOfSlice(s, j, id, 9, n);
      DigitRunExact(s, j + 9, n - 9, 7);
    }
  }

  /**
   * An identifier spelled in any case anywhere in a message is extracted,
   * upper-cased, unless more digits follow its shorter forms.
   */
  lemma CveIdFound(a: string, id: string, b: string)
    requires SpelledCveId(id) && (b == [] || !IsDigit(b[0]) || |id| == 16)
    ensures Upper(id) in CveIds(a + id + b)
  {
    var s, j, n := a + id + b, |a|, |id|;
    assert s[j..j + n] == id;
    if b != [] {
      assert s[j + n] == b[0];
    }
    MatchAtText(s, j, id);
    MatchExtracted(s, j);
  }

  /** No `c` or `C` from index `i` up to `j`. */
  predicate NoCBetween(s: string, i: nat, j: nat)
    requires i <= j <= |s|
    decreases j - i
  {
    i == j || (s[i] != 'c' && s[i] != 'C' && NoCBetween(s, i + 1, j))
  }

  /** The scan passes over a stretch without `c` or `C`: no match starts there. */
  lemma {:induction false} SkipWithoutC(s: string, i: nat, j: nat)
    requires i <= j <= |s| && NoCBetween(s, i, j)
    ensures FindAll("CVE-", s, i) == FindAll("CVE-", s, j)
    decreases j - i
  {
    if i < j {
      MatchStartsC(s, i);
      FindAllSkip("CVE-", s, i);
      SkipWithoutC(s, i + 1, j);
    }
  }

  /** No match starts at a character that is not followed by `v` or `V`. */
  lemma SkipBeforeNonV(s: string, k: nat)
    requires k + 1 < |s| && AsciiLower(s[k + 1]) != 'v'
    ensures FindAll("CVE-", s, k) == FindAll("CVE-", s, k + 1)
  {
    if k + 4 <= |s| {
      assert !FoldMatch("CVE-", s, k, 1);
    }
    FindAllSkip("CVE-", s, k);
  }

  /**
   * The second sample commit message of the module's self-test, written as two
   * literals so that its characters can be looked up.
   */
  const SampleMessage := "Security patch for " + "cve-2020-5678 and CVE-2020-9012"

  /** Where the sample has no `c`, where a `c` is not followed by `v`, and where its two matches are. */
  lemma SampleLayout()
    ensures |SampleMessage| == 50
    ensures NoCBetween(SampleMessage, 0, 2) && NoCBetween(SampleMessage, 3, 12)
    ensures NoCBetween(SampleMessage, 13, 19) && NoCBetween(SampleMessage, 32, 37)
    ensures AsciiLower(SampleMessage[3]) != 'v' && AsciiLower(SampleMessage[13]) != 'v'
  {
  }

  lemma SampleFirstMatch()
    ensures |SampleMessage| == 50
    ensures MatchAt("CVE-", SampleMessage, 19) == Some(13)
  {
    SampleTexts();
    assert SpelledCveId("cve-2020-5678");
    MatchAtText(SampleMessage, 19, "cve-2020-5678");
  }

  lemma SampleSecondMatch()
    ensures |SampleMessage| == 50
    ensures MatchAt("CVE-", SampleMessage, 37) == Some(13)
  {
    SampleTexts();
    assert SpelledCveId("CVE-2020-9012");
    MatchAtText(SampleMessage, 37, "CVE-2020-9012");
  }

  lemma SampleTexts()
    ensures |SampleMessage| == 50
    ensures SampleMessage[19..32] == "cve-2020-5678" && SampleMessage[32] == ' '
    ensures SampleMessage[37..50] == "CVE-2020-9012"
  {
  }

  /** A text laid out like the sample is scanned from 0 as from 19: only the `c` at 19 starts a match. */
  lemma SampleShapeHead(s: string)
    requires 19 <= |s| && NoCBetween(s, 0, 2) && NoCBetween(s, 3, 12) && NoCBetween(s, 13, 19)
    requires AsciiLower(s[3]) != 'v' && AsciiLower(s[13]) != 'v'
    ensures FindAll("CVE-", s, 0) == FindAll("CVE-", s, 19)
  {
    SkipWithoutC(s, 0, 2);
    SkipBeforeNonV(s, 2);
    SkipWithoutC(s, 3, 12);
    SkipBeforeNonV(s, 12);
    SkipWithoutC(s, 13, 19);
  }

  /** From 19 on, a text laid out like the sample yields the match at 19, then the one at 37. */
  lemma SampleShapeTail(s: string)
    requires |s| == 50 && NoCBetween(s, 32, 37)
    requires MatchAt("CVE-", s, 19) == Some(13) && MatchAt("CVE-", s, 37) == Some(13)
    ensures FindAll("CVE-", s, 19) == [s[19..32], s[37..50]]
  {
    FindAllStep("CVE-", s, 19, 13);
    SkipWithoutC(s, 32, 37);
    FindAllStep("CVE-", s, 37, 13);
  }

  /** The scan of the sample skips to index 19, matches 13 characters, skips to 37 and matches the rest. */
  lemma SampleScan()
    ensures FindAll("CVE-", SampleMessage, 0) == ["cve-2020-5678", "CVE-2020-9012"]
  {
    SampleLayout();
    SampleFirstMatch();
    SampleSecondMatch();
    SampleTexts();
    SampleShapeHead(SampleMessage);
    SampleShapeTail(SampleMessage);
  }

  /** The sample yields exactly its two identifiers, upper-cased. */
  lemma ExtractExample()
    ensures CveIds(SampleMessage) == {"CVE-2020-5678", "CVE-2020-9012"}
  {
    SampleScan();
    CveIdsSingleScan(SampleMessage);
    UpperAllPair("cve-2020-5678", "CVE-2020-9012");
    SampleUpper();
  }

  lemma UpperAllPair(a: string, b: string)
    ensures UpperAll([a, b]) == {Upper(a), Upper(b)}
  {
  }

  lemma SampleUpper()
    ensures Upper("cve-2020-5678") == "CVE-2020-5678" && Upper("CVE-2020-9012") == "CVE-2020-9012"
  {
  }

  /** `extract_cve_ids`: the loop over the compiled patterns, updating a set. */
  method ExtractCveIds(text: string) returns (ids: set<string>)
    ensures ids == CveIds(text)
    ensures forall id :: id in ids ==> WellFormedCveId(id)
  {
    ids := {};
    var k := 0;
    while k < |CvePatterns|
      invariant 0 <= k <= |CvePatterns|
      invariant ids == PatternIds(CvePatterns[..k], text)
    {
      var matches := FindAll(CvePatterns[k], text, 0);
      assert CvePatterns[..k + 1][..k] == CvePatterns[..k];
      ids := ids + UpperAll(matches);
      k := k + 1;
    }
    assert CvePatterns[..k] == CvePatterns;
  }

  // ---------------------------------------------------------------------------
  // The point system
  // ---------------------------------------------------------------------------

  /** The entries of `table`, in table order, whose lower-cased form occurs in `messageLower`. */
  function Hits(messageLower: string, table: seq<string>): (hits: seq<string>)
    ensures |hits| <= |table|
  {
    if table == [] then []
    else
      var last := table[|table| - 1];
      Hits(messageLower, table[..|table| - 1]) + (if Contains(messageLower, Lower(last)) then [last] else [])
  }

  function FixHits(message: string): seq<string> { Hits(Lower(message), FixKeywords) }

  function ExcludeHits(message: string): seq<string> { Hits(Lower(message), ExcludeKeywords) }

  /** Rule 1: the target identifier, upper-cased, is among the extracted identifiers. */
  predicate MentionsTarget(message: string, target: string)
  {
    Upper(target) in CveIds(message)
  }

  /** Rule 5: the extracted identifiers other than the target. */
  function OtherIds(message: string, target: string): set<string>
  {
    CveIds(message) - {Upper(target)}
  }

  /** Rule 4. */
  predicate TooShort(message: string) { |message| < ShortLength }

  /**
   * The sum of the five per-rule contributions, given what each rule observed:
   * +100 for a direct mention, +10 per fix keyword up to 50, -5 per exclude
   * keyword down to -30, -10 for a short message, +20 for other identifiers.
   */
  function RuleScore(mentions: bool, fixCount: nat, excludeCount: nat, short: bool, others: bool): (score: int)
    ensures -(ExcludeCap + ShortPenalty) <= score <= DirectPoints + FixCap + OtherPoints
    ensures mentions ==> score >= DirectPoints - ExcludeCap - ShortPenalty
    ensures !mentions ==> score <= FixCap + OtherPoints
    ensures score != 0 ==> mentions || fixCount > 0 || excludeCount > 0 || short || others
  {
    (if mentions then DirectPoints else 0)
    + Min(FixPointsEach * fixCount, FixCap)
    - Min(ExcludePointsEach * excludeCount, ExcludeCap)
    - (if short then ShortPenalty else 0)
    + (if others then OtherPoints else 0)
  }

  /** The score `calculate_match_score` returns. */
  function Score(message: string, target: string): int
  {
    RuleScore(MentionsTarget(message, target), |FixHits(message)|, |ExcludeHits(message)|,
      TooShort(message), OtherIds(message, target) != {})
  }

  /** The explanation entry of one keyword hit: `FixKeyword` when `fix`, else `ExcludeKeyword`. */
  function KeywordEntry(fix: bool, keyword: string): Pattern
  {
    if fix then FixKeyword(keyword) else ExcludeKeyword(keyword)
  }

  /** The explanation entries of one keyword rule, one per hit, in hit order. */
  function KeywordEntries(fix: bool, hits: seq<string>): (ps: seq<Pattern>)
  {
    seq(|hits|, k requires 0 <= k < |hits| => KeywordEntry(fix, hits[k]))
  }

  lemma KeywordEntriesAppend(fix: bool, hits: seq<string>, keyword: string)
    ensures KeywordEntries(fix, hits + [keyword]) == KeywordEntries(fix, hits) + [KeywordEntry(fix, keyword)]
  {
  }

  /** One explanation entry per contribution, rule by rule, given what each rule observed. */
  function RuleEntries(target: string, mentions: bool, fixHits: seq<string>, excludeHits: seq<string>,
                       short: bool, others: set<string>): (ps: seq<Pattern>)
    ensures RuleScore(mentions, |fixHits|, |excludeHits|, short, others != {}) != 0 ==> |ps| > 0
    ensures DirectMention(target) in ps <==> mentions
    ensures MessageTooShort in ps <==> short
    ensures |ps| == (if mentions then 1 else 0) + |fixHits| + |excludeHits|
      + (if short then 1 else 0) + (if others != {} then 1 else 0)
  {
    var direct := if mentions then [DirectMention(target)] else [];
    var fixes := KeywordEntries(true, fixHits);
    var excludes := KeywordEntries(false, excludeHits);
    var shortPart := if short then [MessageTooShort] else [];
    var othersPart := if others != {} then [OtherCves(others)] else [];
    assert DirectMention(target) !in fixes && DirectMention(target) !in excludes;
    assert MessageTooShort !in direct + fixes + excludes;
    direct + fixes + excludes + shortPart + othersPart
  }

  /** The explanation list `calculate_match_score` returns. */
  function Explanations(message: string, target: string): seq<Pattern>
  {
    RuleEntries(target, MentionsTarget(message, target), FixHits(message), ExcludeHits(message),
      TooShort(message), OtherIds(message, target))
  }

  /**
   * One keyword loop of `calculate_match_score` (the source writes it twice, once per
   * table): counts the entries of `table` found in the lower-cased message and appends
   * one explanation entry for each, in table order.
   */
  method ScanKeywords(messageLower: string, table: seq<string>, fix: bool, patterns0: seq<Pattern>)
    returns (count: nat, patterns: seq<Pattern>)
    ensures count == |Hits(messageLower, table)|
    ensures patterns == patterns0 + KeywordEntries(fix, Hits(messageLower, table))
  {
    count := 0;
    patterns := patterns0;
    var k := 0;
    while k < |table|
      invariant 0 <= k <= |table|
      invariant count == |Hits(messageLower, table[..k])|
      invariant patterns == patterns0 + KeywordEntries(fix, Hits(messageLower, table[..k]))
    {
      var keyword := table[k];
      assert table[..k + 1][..k] == table[..k];
      if Contains(messageLower, Lower(keyword)) {
        KeywordEntriesAppend(fix, Hits(messageLower, table[..k]), keyword);
        count := count + 1;
        patterns := patterns + [KeywordEntry(fix, keyword)];
      }
      k := k + 1;
    }
    assert table[..k] == table;
  }

  /** `calculate_match_score`: the five rules in order, keeping a running score and explanation list. */
  method CalculateMatchScore(message: string, target: string) returns (score: int, patterns: seq<Pattern>)
    ensures score == Score(message, target)
    ensures patterns == Explanations(message, target)
  {
    score := 0;
    patterns := [];
    var messageLower := Lower(message);

    var cveIds := ExtractCveIds(message);
    ghost var mentions := MentionsTarget(message, target);
    if Upper(target) in cveIds {
      score := score + DirectPoints;
      patterns := patterns + [DirectMention(target)];
    }
    ghost var direct := patterns;
    assert score == (if mentions then DirectPoints else 0);
    assert direct == if mentions then [DirectMention(target)] else [];

    var fixCount;
    fixCount, patterns := ScanKeywords(messageLower, FixKeywords, true, patterns);
    if fixCount > 0 {
      score := score + Min(fixCount * FixPointsEach, FixCap);
    }
    assert score == (if mentions then DirectPoints else 0) + Min(FixPointsEach * fixCount, FixCap);

    var excludeCount;
    excludeCount, patterns := ScanKeywords(messageLower, ExcludeKeywords, false, patterns);
    if excludeCount > 0 {
      score := score - Min(excludeCount * ExcludePointsEach, ExcludeCap);
    }
    assert score == (if mentions then DirectPoints else 0) + Min(FixPointsEach * fixCount, FixCap)
      - Min(ExcludePointsEach * excludeCount, ExcludeCap);
    ghost var keywords := patterns;
    assert keywords == direct + KeywordEntries(true, FixHits(message)) + KeywordEntries(false, ExcludeHits(message));

    if |message| < ShortLength {
      score := score - ShortPenalty;
      patterns := patterns + [MessageTooShort];
    }
    assert patterns == keywords + if TooShort(message) then [MessageTooShort] else [];

    var otherCves := cveIds - {Upper(target)};
    if otherCves != {} {
      score := score + OtherPoints;
      patterns := patterns + [OtherCves(otherCves)];
    }
    RuleParts(message, target);
  }

  /** The score and the explanation list, rule by rule. */
  lemma RuleParts(message: string, target: string)
    ensures Score(message, target) == (if MentionsTarget(message, target) then DirectPoints else 0)
      + Min(FixPointsEach * |FixHits(message)|, FixCap) - Min(ExcludePointsEach * |ExcludeHits(message)|, ExcludeCap)
      - (if TooShort(message) then ShortPenalty else 0) + (if OtherIds(message, target) != {} then OtherPoints else 0)
    ensures Explanations(message, target) == (if MentionsTarget(message, target) then [DirectMention(target)] else [])
      + KeywordEntries(true, FixHits(message)) + KeywordEntries(false, ExcludeHits(message))
      + (if TooShort(message) then [MessageTooShort] else [])
      + (if OtherIds(message, target) != {} then [OtherCves(OtherIds(message, target))] else [])
  {
  }

  // ---------------------------------------------------------------------------
  // analyze_commit
  // ---------------------------------------------------------------------------

  function ShaOf(c: RawCommit): string { match c.sha case None => "" case Some(s) => s }

  function MessageOf(c: RawCommit): string
  {
    match c.commit
    case None => ""
    case Some(info) => match info.message case None => "" case Some(m) => m
  }

  function AuthorOf(c: RawCommit): Option<AuthorInfo>
  {
    match c.commit
    case None => None
    case Some(info) => info.author
  }

  function AuthorNameOf(c: RawCommit): string
  {
    match AuthorOf(c)
    case None => "Unknown"
    case Some(a) => match a.name case None => "Unknown" case Some(n) => n
  }

  function DateOf(c: RawCommit): string
  {
    match AuthorOf(c)
    case None => ""
    case Some(a) => match a.date case None => "" case Some(d) => d
  }

  /** The result `analyze_commit(commit, target)` builds. */
  function Analysis(c: RawCommit, target: string): (r: CommitMatchResult)
    ensures r.matchedCve <==> DirectMention(target) in r.matchedPatterns
  {
    var message := MessageOf(c);
    CommitMatchResult(ShaOf(c), message, AuthorNameOf(c), DateOf(c),
      Score(message, target), Explanations(message, target), MentionsTarget(message, target))
  }

  /** `analyze_commit`: `matched_cve` comes from a second extraction, not from the score. */
  method AnalyzeCommit(c: RawCommit, target: string) returns (r: CommitMatchResult)
    ensures r == Analysis(c, target)
    ensures r.sha == ShaOf(c) && r.message == MessageOf(c) && r.author == AuthorNameOf(c) && r.date == DateOf(c)
    ensures r.matchedCve <==> Upper(target) in CveIds(MessageOf(c))
  {
    var sha := ShaOf(c);
    var message := MessageOf(c);
    var author := AuthorNameOf(c);
    var date := DateOf(c);
    var score, matchedPatterns := CalculateMatchScore(message, target);
    var cveIds := ExtractCveIds(message);
    var matchedCve := Upper(target) in cveIds;
    r := CommitMatchResult(sha, message, author, date, score, matchedPatterns, matchedCve);
  }

  /**
   * A commit whose message spells the target's identifier, in any case, gets
   * the direct mention: at least 60 points, the explanation entry for it, and
   * `matched_cve` set.
   */
  lemma MentionFires(c: RawCommit, a: string, id: string, b: string, target: string)
    requires MessageOf(c) == a + id + b && Upper(target) == Upper(id)
    requires SpelledCveId(id) && (b == [] || !IsDigit(b[0]) || |id| == 16)
    ensures Score(MessageOf(c), target) >= DirectPoints - ExcludeCap - ShortPenalty
    ensures DirectMention(target) in Explanations(MessageOf(c), target)
    ensures Analysis(c, target).matchedCve
  {
    CveIdFound(a, id, b);
  }

  // ---------------------------------------------------------------------------
  // filter_commits: keep, then `results.sort(key=score, reverse=True)`
  // ---------------------------------------------------------------------------

  /** Scores never increase from left to right. */
  predicate SortedByScoreDesc(rs: seq<CommitMatchResult>)
  {
    forall i, j :: 0 <= i < j < |rs| ==> rs[i].score >= rs[j].score
  }

  /** The results of `rs` that have score `v`, in their order in `rs`. */
  function WithScore(rs: seq<CommitMatchResult>, v: int): (w: seq<CommitMatchResult>)
    ensures |w| <= |rs|
  {
    if rs == [] then []
    else (if rs[0].score == v then [rs[0]] else []) + WithScore(rs[1..], v)
  }

  /** Puts `x` in front of the first result that does not score above it. */
  function InsertByScore(x: CommitMatchResult, rs: seq<CommitMatchResult>): (out: seq<CommitMatchResult>)
    ensures |out| == |rs| + 1
  {
    if rs == [] || x.score >= rs[0].score then [x] + rs
    else [rs[0]] + InsertByScore(x, rs[1..])
  }

  /**
   * Python's `list.sort(key=lambda x: x.score, reverse=True)`: a stable sort by
   * descending score (results with equal scores keep their relative order).
   */
  function SortByScoreDesc(rs: seq<CommitMatchResult>): (out: seq<CommitMatchResult>)
    ensures |out| == |rs|
  {
    if rs == [] then [] else InsertByScore(rs[0], SortByScoreDesc(rs[1..]))
  }

  /** No result of `rs` scores above `b`. */
  predicate ScoresAtMost(rs: seq<CommitMatchResult>, b: int)
  {
    forall k :: 0 <= k < |rs| ==> rs[k].score <= b
  }

  lemma SortedCons(h: CommitMatchResult, t: seq<CommitMatchResult>)
    requires SortedByScoreDesc(t) && ScoresAtMost(t, h.score)
    ensures SortedByScoreDesc([h] + t)
  {
    var s := [h] + t;
    forall i, j | 0 <= i < j < |s| ensures s[i].score >= s[j].score {
      assert s[j] == t[j - 1];
      if i > 0 { assert s[i] == t[i - 1]; }
    }
  }

  lemma {:induction false} InsertBounded(x: CommitMatchResult, rs: seq<CommitMatchResult>, b: int)
    requires x.score <= b && ScoresAtMost(rs, b)
    ensures ScoresAtMost(InsertByScore(x, rs), b)
  {
    if rs != [] && x.score < rs[0].score {
      InsertBounded(x, rs[1..], b);
      var tail := InsertByScore(x, rs[1..]);
      assert InsertByScore(x, rs) == [rs[0]] + tail;
    }
  }

  lemma {:induction false} InsertSorted(x: CommitMatchResult, rs: seq<CommitMatchResult>)
    requires SortedByScoreDesc(rs)
    ensures SortedByScoreDesc(InsertByScore(x, rs))
  {
    if rs == [] || x.score >= rs[0].score {
      assert ScoresAtMost(rs, x.score) by {
        forall k | 0 <= k < |rs| ensures rs[k].score <= x.score {
          assert rs[0].score >= rs[k].score;
        }
      }
      SortedCons(x, rs);
    } else {
      assert SortedByScoreDesc(rs[1..]);
      InsertSorted(x, rs[1..]);
      assert ScoresAtMost(rs[1..], rs[0].score);
      InsertBounded(x, rs[1..], rs[0].score);
      SortedCons(rs[0], InsertByScore(x, rs[1..]));
    }
  }

  lemma {:induction false} InsertPermutation(x: CommitMatchResult, rs: seq<CommitMatchResult>)
    ensures multiset(InsertByScore(x, rs)) == multiset(rs) + multiset{x}
  {
    if rs != [] && x.score < rs[0].score {
      InsertPermutation(x, rs[1..]);
      assert rs == [rs[0]] + rs[1..];
    }
  }

  /** The sort orders by descending score and is a permutation. */
  lemma {:induction false} SortSortedPermutation(rs: seq<CommitMatchResult>)
    ensures SortedByScoreDesc(SortByScoreDesc(rs))
    ensures multiset(SortByScoreDesc(rs)) == multiset(rs)
  {
    SortSorted(rs);
    SortPermutation(rs);
  }

  lemma {:induction false} SortSorted(rs: seq<CommitMatchResult>)
    ensures SortedByScoreDesc(SortByScoreDesc(rs))
  {
    if rs != [] {
      SortSorted(rs[1..]);
      InsertSorted(rs[0], SortByScoreDesc(rs[1..]));
    }
  }

  lemma {:induction false} SortPermutation(rs: seq<CommitMatchResult>)
    ensures multiset(SortByScoreDesc(rs)) == multiset(rs)
  {
    if rs != [] {
      SortPermutation(rs[1..]);
      InsertPermutation(rs[0], SortByScoreDesc(rs[1..]));
      assert rs == [rs[0]] + rs[1..];
    }
  }

  lemma WithScoreCons(x: CommitMatchResult, rs: seq<CommitMatchResult>, v: int)
    ensures WithScore([x] + rs, v) == (if x.score == v then [x] else []) + WithScore(rs, v)
  {
    assert ([x] + rs)[1..] == rs;
  }

  lemma {:induction false} InsertStable(x: CommitMatchResult, rs: seq<CommitMatchResult>, v: int)
    requires SortedByScoreDesc(rs)
    ensures WithScore(InsertByScore(x, rs), v) == WithScore([x] + rs, v)
  {
    if rs != [] && x.score < rs[0].score {
      InsertStable(x, rs[1..], v);
      var tail := InsertByScore(x, rs[1..]);
      assert InsertByScore(x, rs) == [rs[0]] + tail;
      assert rs == [rs[0]] + rs[1..];
      var rest := WithScore(rs[1..], v);
      WithScoreCons(rs[0], tail, v);
      WithScoreCons(x, rs, v);
      WithScoreCons(x, rs[1..], v);
      WithScoreCons(rs[0], rs[1..], v);
      // x and rs[0] have different scores, so at most one of the two heads is kept
      if x.score == v {
        assert WithScore(InsertByScore(x, rs), v) == [x] + rest;
      } else if rs[0].score == v {
        assert WithScore(InsertByScore(x, rs), v) == [rs[0]] + rest;
      } else {
        assert WithScore(InsertByScore(x, rs), v) == rest;
      }
    }
  }

  /** Stability: for every score, the sort keeps the results having it in their original order. */
  lemma {:induction false} SortStable(rs: seq<CommitMatchResult>, v: int)
    ensures WithScore(SortByScoreDesc(rs), v) == WithScore(rs, v)
  {
    if rs != [] {
      SortStable(rs[1..], v);
      SortSortedPermutation(rs[1..]);
      InsertStable(rs[0], SortByScoreDesc(rs[1..]), v);
      WithScoreCons(rs[0], SortByScoreDesc(rs[1..]), v);
      WithScoreCons(rs[0], rs[1..], v);
      assert rs == [rs[0]] + rs[1..];
    }
  }

  lemma {:induction false} WithScoreMember(rs: seq<CommitMatchResult>, v: int, r: CommitMatchResult)
    ensures r in WithScore(rs, v) <==> r in rs && r.score == v
  {
    if rs != [] {
      WithScoreMember(rs[1..], v, r);
      assert rs == [rs[0]] + rs[1..];
    }
  }

  /** Two score-sorted sequences that agree on every score group are the same sequence. */
  lemma {:induction false} SameGroupsEqual(a: seq<CommitMatchResult>, b: seq<CommitMatchResult>)
    requires SortedByScoreDesc(a) && SortedByScoreDesc(b)
    requires forall v :: WithScore(a, v) == WithScore(b, v)
    ensures a == b
    decreases |a|
  {
    if a == [] || b == [] {
      if a != [] {
        assert WithScore(b, a[0].score) == [];
        WithScoreMember(a, a[0].score, a[0]);
        assert false;
      } else if b != [] {
        assert WithScore(a, b[0].score) == [];
        WithScoreMember(b, b[0].score, b[0]);
        assert false;
      }
    } else {
      WithScoreMember(b, b[0].score, b[0]);
      WithScoreMember(a, b[0].score, b[0]);
      WithScoreMember(a, a[0].score, a[0]);
      WithScoreMember(b, a[0].score, a[0]);
      var m := a[0].score;
      assert b[0].score == m by {
        var i :| 0 <= i < |a| && a[i] == b[0];
        var j :| 0 <= j < |b| && b[j] == a[0];
        assert a[0].score >= a[i].score;
        assert b[0].score >= b[j].score;
      }
      assert a == [a[0]] + a[1..] && b == [b[0]] + b[1..];
      WithScoreCons(a[0], a[1..], m);
      WithScoreCons(b[0], b[1..], m);
      assert WithScore(a, m)[0] == a[0] && WithScore(b, m)[0] == b[0];
      forall v ensures WithScore(a[1..], v) == WithScore(b[1..], v) {
        WithScoreCons(a[0], a[1..], v);
        WithScoreCons(b[0], b[1..], v);
        var h := if a[0].score == v then [a[0]] else [];
        assert WithScore(a, v) == h + WithScore(a[1..], v);
        assert WithScore(b, v) == h + WithScore(b[1..], v);
        assert WithScore(a[1..], v) == WithScore(a, v)[|h|..];
        assert WithScore(b[1..], v) == WithScore(b, v)[|h|..];
      }
      assert SortedByScoreDesc(a[1..]) && SortedByScoreDesc(b[1..]);
      SameGroupsEqual(a[1..], b[1..]);
      assert a == [a[0]] + a[1..] && b == [b[0]] + b[1..];
    }
  }

  /**
   * The sort is characterised independently of its construction: it is the only
   * arrangement that is score-sorted and keeps every score group in input order.
   */
  lemma SortUnique(rs: seq<CommitMatchResult>, out: seq<CommitMatchResult>)
    requires SortedByScoreDesc(out)
    requires forall v :: WithScore(out, v) == WithScore(rs, v)
    ensures out == SortByScoreDesc(rs)
  {
    var sorted := SortByScoreDesc(rs);
    SortSortedPermutation(rs);
    forall v ensures WithScore(out, v) == WithScore(sorted, v) {
      SortStable(rs, v);
    }
    SameGroupsEqual(out, sorted);
  }

  /** The results of `rs`, in order, that score at least `minScore`. */
  function AtLeast(rs: seq<CommitMatchResult>, minScore: int): (kept: seq<CommitMatchResult>)
    ensures |kept| <= |rs|
  {
    if rs == [] then []
    else AtLeast(rs[..|rs| - 1], minScore) + (if rs[|rs| - 1].score >= minScore then [rs[|rs| - 1]] else [])
  }

  lemma {:induction false} AtLeastMember(rs: seq<CommitMatchResult>, minScore: int, r: CommitMatchResult)
    ensures r in AtLeast(rs, minScore) <==> r in rs && r.score >= minScore
  {
    if rs != [] {
      AtLeastMember(rs[..|rs| - 1], minScore, r);
      assert rs == rs[..|rs| - 1] + [rs[|rs| - 1]];
    }
  }

  /** `analyze_commit` applied to every commit, in input order. */
  function Analyses(commits: seq<RawCommit>, target: string): (rs: seq<CommitMatchResult>)
    ensures |rs| == |commits|
  {
    seq(|commits|, k requires 0 <= k < |commits| => Analysis(commits[k], target))
  }

  /** The analyses of `commits`, in input order, that score at least `minScore`. */
  function Kept(commits: seq<RawCommit>, target: string, minScore: int): seq<CommitMatchResult>
  {
    AtLeast(Analyses(commits, target), minScore)
  }

  /** A result is kept exactly when it is the analysis of some commit and reaches the threshold. */
  lemma KeptMember(commits: seq<RawCommit>, target: string, minScore: int, r: CommitMatchResult)
    ensures r in Kept(commits, target, minScore) <==>
      r.score >= minScore && exists c :: c in commits && r == Analysis(c, target)
  {
    var rs := Analyses(commits, target);
    AtLeastMember(rs, minScore, r);
    if r in rs {
      var k :| 0 <= k < |rs| && rs[k] == r;
      assert commits[k] in commits;
    }
    if exists c :: c in commits && r == Analysis(c, target) {
      var c :| c in commits && r == Analysis(c, target);
      var k :| 0 <= k < |commits| && commits[k] == c;
      assert rs[k] == r;
    }
  }

  /**
   * `filter_commits`: analyses every commit, keeps those scoring at least
   * `minScore` and returns them sorted by descending score.
   */
  method FilterCommits(commits: seq<RawCommit>, target: string, minScore: int) returns (results: seq<CommitMatchResult>)
    ensures results == SortByScoreDesc(Kept(commits, target, minScore))
    ensures SortedByScoreDesc(results)
    ensures multiset(results) == multiset(Kept(commits, target, minScore))
  {
    var kept: seq<CommitMatchResult> := [];
    for k := 0 to |commits|
      invariant kept == AtLeast(Analyses(commits[..k], target), minScore)
    {
      var result := AnalyzeCommit(commits[k], target);
      var done := Analyses(commits[..k + 1], target);
      assert done[..k] == Analyses(commits[..k], target);
      assert done[k] == result;
      if result.score >= minScore {
        kept := kept + [result];
      }
    }
    assert commits[..|commits|] == commits;
    SortSortedPermutation(kept);
    results := SortByScoreDesc(kept);
  }

  /** Python's `xs[:n]`: a negative `n` counts from the end. */
  function PyHead<T>(xs: seq<T>, n: int): (h: seq<T>)
    ensures 0 <= n ==> |h| == Min(n, |xs|)
    ensures n < 0 ==> |h| == if |xs| + n < 0 then 0 else |xs| + n
    ensures h <= xs
  {
    if 0 <= n then xs[..Min(n, |xs|)]
    else if |xs| + n < 0 then []
    else xs[..|xs| + n]
  }

  /**
   * `get_top_candidates`: filters with threshold 0 and keeps the first `topN`
   * results of the ranking. Nothing left out scores above anything returned.
   */
  method GetTopCandidates(commits: seq<RawCommit>, target: string, topN: int) returns (top: seq<CommitMatchResult>)
    ensures top == PyHead(SortByScoreDesc(Kept(commits, target, DefaultMinScore)), topN)
    ensures forall r :: r in top ==> r.score >= DefaultMinScore
    ensures 0 <= topN ==> |top| == Min(topN, |Kept(commits, target, DefaultMinScore)|)
    ensures forall i, j :: 0 <= i < |top| <= j < |SortByScoreDesc(Kept(commits, target, DefaultMinScore))| ==>
      SortByScoreDesc(Kept(commits, target, DefaultMinScore))[j].score <= top[i].score
  {
    var results := FilterCommits(commits, target, DefaultMinScore);
    top := PyHead(results, topN);
    forall r | r in top ensures r.score >= DefaultMinScore {
      assert r in results;
      assert r in multiset(Kept(commits, target, DefaultMinScore));
      KeptMember(commits, target, DefaultMinScore, r);
    }
  }

  // ---------------------------------------------------------------------------
  // Edge cases: the empty message, a message without a hyphen
  // ---------------------------------------------------------------------------

  lemma {:induction false} HitsOfEmpty(table: seq<string>)
    requires forall k :: 0 <= k < |table| ==> table[k] != []
    ensures Hits("", table) == []
  {
    if table != [] {
      HitsOfEmpty(table[..|table| - 1]);
      assert |Lower(table[|table| - 1])| > 0;
    }
  }

  /** The empty message scores -10, with the single entry for a short message. */
  lemma EmptyMessage(target: string)
    ensures Score("", target) == -ShortPenalty
    ensures Explanations("", target) == [MessageTooShort]
  {
    assert Lower("") == "";
    HitsOfEmpty(FixKeywords);
    HitsOfEmpty(ExcludeKeywords);
    assert CveIds("") == {} by {
      CveIdsSingleScan("");
      assert FindAll("CVE-", "", 0) == [];
    }
  }

  /** Without a `-` there is nothing for `CVE-\d{4}-\d{4,7}` to match. */
  lemma {:induction false} NoDashFindNone(s: string, i: nat)
    requires i <= |s| && '-' !in s
    ensures FindAll("CVE-", s, i) == []
    decreases |s| - i
  {
    if i < |s| {
      NoDashFindNone(s, i + 1);
    }
  }

  /** A message without a `-` mentions no CVE identifier. */
  lemma NoDashNoIds(s: string)
    requires '-' !in s
    ensures CveIds(s) == {}
  {
    CveIdsSingleScan(s);
    NoDashFindNone(s, 0);
  }
}
