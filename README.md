# CVE fix-commit matching: a verified model

This project models the core of a tool that looks for the commit that fixed a
CVE (a "Common Vulnerabilities and Exposures" entry) in a GitHub repository.

The core has four parts. Each is a Dafny module.

- `CommitMatcher` covers the commit scorer.
  - It extracts the CVE identifiers in a commit message.
  - It scores a message against a target CVE with five hand-tuned rules and keeps an explanation entry per rule hit.
  - It analyses commit objects.
  - It keeps the commits that reach a threshold, sorted stably by descending score, and cuts the ranking at N.
- `TimeUtils` covers the search window.
  - It reads a CVE disclosure time: the first of five `strptime` formats that matches, else `fromisoformat`.
  - It shifts that time by whole months (`relativedelta`) to get `(since, until)`.
  - It formats both bounds as `%Y-%m-%dT%H:%M:%SZ`.
  - It reads GitHub commit dates and tests whether one lies inside the window.
- `GitHubApi` covers `parse_repo_url`, which turns a repository URL into `(owner, repo)`.
- `TimeWindow` covers the offline analyser.
  - It has its own two timestamp readers and the signed distance between a disclosure and its fix commit.
  - The class `TimeWindowAnalyzer` holds `time_diffs`, the before/after counters and the percentile and histogram statistics.

Four supporting modules state the Python behaviour the core relies on:

- `Text` covers ASCII case mapping, `strip`, `in` and `split`.
- `Calendar` covers:
  - the `datetime` record with an optional UTC offset and the Gregorian calendar;
  - Python's ordering and subtraction of naive and aware values, where a mixed pair raises;
  - `relativedelta(months=n)`;
  - the GitHub `strftime` layout and the date-time grammar of section 5.6 of RFC 3339.
- `Strptime` models CPython's `strptime` for the fixed formats. The format becomes one regular-expression group per directive. The groups are matched with backtracking from the start of the text, leftover input is refused, and the `datetime` constructor validates the result.
- `IsoFormat` covers `fromisoformat` on the grammar the code feeds it, `YYYY-MM-DD[[T| ]HH:MM[:SS[.f{1,6}]][±HH:MM]]`, and the printer it inverts (`isoformat`, and `str()` with a space separator).

Where the documentation and the code disagree, the model follows the code:

- `is_commit_in_range` is documented as inclusive at both bounds. As written, it returns `False` for every GitHub `Z` commit date held against a window from `calculate_time_range`. The commit date reads as an aware value, the bounds read as naive ones, and comparing the two raises (see Findings).
- `parse_commit_time` has two cases that raise:
  - A time whose offset is a negative whole number of hours is refused. `"… -05:00"` has no `+` and ends in `00`, so it is rewritten to `"… -05:+00:00"`.
  - A naive time whose seconds are `00` is refused for the same reason.

  The model keeps both behaviours and proves them (`TimeWindow.CommitStrWestWholeHour`, `TimeWindow.CommitNaiveWholeMinute`).

Inputs that the source reads from a database or from GitHub are parameters of the model:

- the `fixes` rows of the analyser;
- the commit objects, with missing keys as `None`;
- the URLs.

## Model

| member | source | states |
|---|---|---|
| CommitMatcher.ExtractCveIds | commit_matcher.py:77-94 | The loop over the two compiled patterns builds exactly `CveIds(text)` (the union of the upper-cased `findall` matches), and every identifier in it is `CVE-` + 4 digits + `-` + 4 to 7 digits. Which identifiers the set holds is stated by `CommitMatcher.CveIdsExactly` and `CommitMatcher.CveIdFound`. |
| CommitMatcher.PatternIdsWellFormed | commit_matcher.py:30-33 | Every identifier the patterns `CVE-\d{4}-\d{4,7}` and `cve-\d{4}-\d{4,7}` yield, upper-cased, is well formed. |
| CommitMatcher.CveIdsSingleScan | commit_matcher.py:30-33 | Because both patterns are compiled with `re.IGNORECASE`, the extracted set is the upper-cased matches of one case-insensitive scan, so duplicates collapse. |
| CommitMatcher.CveIdsIgnoreCase | commit_matcher.py:75-92 | Upper-casing the message does not change the extracted set. |
| CommitMatcher.NoDashNoIds | commit_matcher.py:30-33 | A message that contains no `-` yields no identifier. |
| CommitMatcher.CveIdsExactly | commit_matcher.py:77-94 | An identifier is extracted iff it is the upper-cased text of a greedy match of `CVE-\d{4}-\d{4,7}`, in any case, at some position of the message. Matches never overlap, so the left-to-right `findall` scan misses none of them. |
| CommitMatcher.CveIdFound | commit_matcher.py:77-94 | `cve-` in any case, 4 digits, `-` and 4 to 7 digits, anywhere in a message, is extracted upper-cased, provided no further digit follows a shorter number. |
| CommitMatcher.ExtractExample | commit_matcher.py:271 | `"Security patch for cve-2020-5678 and CVE-2020-9012"` yields exactly `{"CVE-2020-5678", "CVE-2020-9012"}`. |
| CommitMatcher.RuleScore | commit_matcher.py:111-153 | Summing the five rule contributions gives a score in [-40, 170]. A direct mention guarantees at least 60; without one the score is at most 70. A nonzero score means some rule fired. |
| CommitMatcher.RuleEntries | commit_matcher.py:112-153 | There is one explanation entry per contribution, rule by rule: the direct-mention entry iff the target was found, one per keyword hit, the short-message entry iff the message is short, and one entry for other CVEs. The list is non-empty whenever the score is nonzero. |
| CommitMatcher.ScanKeywords | commit_matcher.py:124-142 | One keyword loop counts the table entries whose lower-cased form occurs in the lower-cased message. It appends one entry per hit, in table order, after the entries so far. |
| CommitMatcher.CalculateMatchScore | commit_matcher.py:96-157 | The running score and list equal the rule-by-rule definition. That is +100 and one entry iff `target.upper()` is extracted, `+min(10k, 50)` for k fix keywords, `-min(5k, 30)` for k exclude keywords, -10 under 20 characters and +20 once for other identifiers. The bounds follow from `RuleScore` and `RuleEntries`. |
| CommitMatcher.EmptyMessage | commit_matcher.py:145-147 | The empty message scores exactly -10, with the single short-message entry. |
| CommitMatcher.Analysis | commit_matcher.py:159-200 | `matched_cve` holds exactly when the explanation list has the direct-mention entry. |
| CommitMatcher.AnalyzeCommit | commit_matcher.py:159-200 | A missing key reads as the default: `''` for the sha, message and date, `'Unknown'` for the author. The score and list are those of `calculate_match_score`. `matched_cve` comes from a second extraction: `target.upper()` is among the message's identifiers. |
| CommitMatcher.MentionFires | commit_matcher.py:116-120 | A commit whose message spells the target identifier in any case gets the +100 rule: a score of at least 60, the direct-mention entry, and `matched_cve` set. |
| CommitMatcher.SortSortedPermutation | commit_matcher.py:227 | `results.sort(key=score, reverse=True)` orders by non-increasing score and is a permutation. |
| CommitMatcher.SortStable | commit_matcher.py:227 | Stability: for each score, the results with that score keep their input order. |
| CommitMatcher.SortUnique | commit_matcher.py:227 | Any arrangement that is score-sorted and keeps every score group in input order is the sort's output. |
| CommitMatcher.AtLeastMember | commit_matcher.py:223-224 | A result survives the threshold iff it is in the input and scores at least `min_score`. |
| CommitMatcher.KeptMember | commit_matcher.py:219-224 | A kept result is exactly the analysis of some commit that reaches `min_score`. |
| CommitMatcher.FilterCommits | commit_matcher.py:202-231 | The result is the threshold-kept analyses, in input order, sorted stably by descending score. It is sorted and a permutation of the kept analyses. |
| CommitMatcher.PyHead | commit_matcher.py:253 | `xs[:n]` is a prefix of `xs`. Its length is `min(n, len(xs))` for `n >= 0`, and a negative `n` drops that many from the end. |
| CommitMatcher.GetTopCandidates | commit_matcher.py:233-259 | The result is `filter_commits(..., min_score=0)[:top_n]`. No returned score is negative, at most `top_n` items come back for `top_n >= 0`, and nothing left out scores above anything returned. |
| TimeUtils.ParseFirst | time_utils.py:39-43 | The first format that parses decides the result: the value of format k, with all earlier formats failing. The search fails iff no format parses. |
| TimeUtils.ParseCvePublishedDate | time_utils.py:19-50 | Any value read is a valid date-time. When any of the five `strptime` formats matches, the reading succeeds and the value is naive. |
| TimeUtils.ParseCveAt | time_utils.py:31-43 | If format k parses and every earlier one fails, the result is format k's value. |
| TimeUtils.ParseCveMinute | time_utils.py:32 | `YYYY-MM-DDTHH:MMZ` reads as its fields with seconds and microseconds zero. |
| TimeUtils.ParseCveSecond | time_utils.py:32-33 | `YYYY-MM-DDTHH:MM:SSZ` is too long for the first format and reads through the second. |
| TimeUtils.ParseCveFraction | time_utils.py:32-34 | `YYYY-MM-DDTHH:MM:SS.fZ` with one to six fraction digits reads through the third format. The fraction is scaled to microseconds, so `.123` keeps 123000. |
| TimeUtils.ParseMinuteExample | time_utils.py:176 | `"2020-02-04T17:15Z"` reads as 2020-02-04 17:15:00, naive. |
| TimeUtils.ParseSecondExample | time_utils.py:177 | `"2020-02-04T17:15:30Z"` reads as 2020-02-04 17:15:30, naive. |
| TimeUtils.CalculateTimeRange | time_utils.py:53-87 | Both bounds of the window are RFC 3339 UTC date-times. |
| TimeUtils.WindowReparse | time_utils.py:75-83 | Each bound reads back as the disclosure time moved `months_before` back or `months_after` forward. The month count shifts by exactly that, the day is clamped to the target month, and the clock is kept to the second. The microseconds are dropped and the value is naive. |
| TimeUtils.WindowOrdered | time_utils.py:78-79 | With non-negative shifts, `since <= until`. |
| TimeUtils.WindowZero | time_utils.py:78-83 | With no shift, both bounds are the formatted disclosure time. |
| TimeUtils.WindowExample | time_utils.py:69-72 | With the configured defaults of six months each way, `"2020-02-04T17:15Z"` gives `("2019-08-04T17:15:00Z", "2020-08-04T17:15:00Z")`. |
| TimeUtils.ParseCveGithub | time_utils.py:82-83 | A GitHub timestamp is too long for the first format. It reads through the second as the naive time to the second. |
| TimeUtils.ParseCommitGithub | time_utils.py:103-118 | A GitHub timestamp read by `parse_github_commit_date` is the aware UTC value, to the second. |
| TimeUtils.ParseGithubCommitDate | time_utils.py:103-118 | Any commit date read is a valid date-time. |
| TimeUtils.GithubDateWithoutZ | time_utils.py:115 | A commit date without `Z` goes to `fromisoformat` unchanged. |
| TimeUtils.IsCommitInRange | time_utils.py:121-145 | `True` only when all three dates parse and are all naive or all aware. A parse failure or a naive/aware pair makes the code raise, and the `except` gives `False`. |
| TimeUtils.InRangeMeaning | time_utils.py:121-145 | When all three dates parse and are all naive or all aware, membership is `since <= commit <= until` on the time line, both bounds included. |
| TimeUtils.InRangeAtBounds | time_utils.py:142 | A commit dated exactly at either bound of an ordered window is inside it. |
| TimeUtils.GithubCommitNeverInWindow | time_utils.py:137-145 | As written, a GitHub `Z` commit date is never inside a window from `calculate_time_range`. The naive/aware comparison raises and is turned into `False`. |
| TimeUtils.IsCommitInRangeUtc | time_utils.py:121-145 | The corrected test is `True` only when all three dates parse. |
| TimeUtils.InRangeUtcAgrees | time_utils.py:137-145 | When all three dates parse and are all naive or all aware, the corrected test and the code as written give the same answer. They differ only where the code raises. |
| TimeUtils.GithubInWindowUtc | time_utils.py:121-145 | With the bounds read as UTC, a GitHub commit date is inside exactly when its time lies between the two bounds. |
| TimeUtils.WindowBoundsInside | time_utils.py:121-145 | With the bounds read as UTC, both bounds of a window with non-negative shifts, taken as commit dates, are inside it. |
| Calendar.LessEq | time_utils.py:142 | `<=` on datetimes raises iff exactly one side is naive. |
| Calendar.Subtract | analyze_time_window.py:133 | `a - b` raises iff exactly one side is naive. |
| Calendar.LessEqSubtract | analyze_time_window.py:129-135 | Comparison and subtraction agree: both succeed together, and `a <= b` iff `a - b` is not positive. |
| Calendar.FieldsLeChronological | time_utils.py:142 | The field-by-field order of naive values is the order of their wall-clock microseconds. |
| Calendar.AddMonthsCalendar | time_utils.py:78-79 | `dt + relativedelta(months=n)` adds n to the month count and clamps the day to the target month's length. It keeps the clock, the microseconds and the offset, and fails iff the target year leaves 1..9999. |
| Calendar.SubMonthsIsAddNeg | time_utils.py:78 | Subtracting `relativedelta(months=n)` is adding `-n` months. |
| Calendar.SubMonthsCalendar | time_utils.py:78 | `dt - relativedelta(months=n)` subtracts n from the month count and clamps the day to the target month's length. It keeps the clock, the microseconds and the offset. |
| Calendar.RelativeMonths | time_utils.py:78-79 | `relativedelta(months=n)` normalises to years and at most eleven months of the same sign, with `12·years + months == n`. |
| Calendar.FormatGithubRfc3339 | time_utils.py:90-100 | `%Y-%m-%dT%H:%M:%SZ` is an RFC 3339 section 5.6 date-time whose fields read back as those of the value. |
| Strptime.Parse | time_utils.py:41 | A `strptime` result is a valid, naive date-time. |
| Strptime.ParseTooLong | time_utils.py:39-43 | Input longer than a format can consume always leaves unconverted data and fails. |
| Strptime.ParseGithub | time_utils.py:33 | `%Y-%m-%dT%H:%M:%SZ` reads a GitHub timestamp back as the value, to the second. |
| IsoFormat.FromIsoFormat | time_utils.py:46 | A value read is valid with the date fields spelled in the text. It is aware iff the time part carries a sign, and the separator is `T` or a space. |
| IsoFormat.IsoRoundTrip | time_utils.py:115 | `fromisoformat(dt.isoformat()) == dt` for every valid value whose offset is a whole number of minutes. |
| IsoFormat.IsoSepRoundTrip | analyze_time_window.py:169 | The same round trip holds for the space-separated `str(dt)`. |
| GitHubApi.ParseRepoUrl | github_api.py:94-136 | The result is `None` exactly when the rewritten path has no `/`. Otherwise it is the path's first two `/`-separated segments, possibly empty, with later segments ignored. It never raises. |
| GitHubApi.ParseRepoUrlLeading | github_api.py:125-129 | Conversely, any two leading segments of the path are the answer. |
| GitHubApi.DropSchemeIsSplit | github_api.py:113-114 | Dropping `http://` or `https://` is `url.split('://', 1)[1]`. |
| GitHubApi.GithubUrlPath | github_api.py:110-122 | For `[scheme]github.com/<path>[.git]`, strip, scheme, host and `.git` are each applied once, in order, and leave exactly the path. |
| GitHubApi.GithubUrlSegments | github_api.py:110-129 | `[scheme]github.com/owner/repo[.git]` names the repository `(owner, repo)`. |
| GitHubApi.MariaDbExample | github_api.py:299 | `"https://github.com/MariaDB/server"` gives `("MariaDB", "server")`. |
| GitHubApi.LinuxExample | github_api.py:300 | `"github.com/torvalds/linux"` gives `("torvalds", "linux")`. |
| GitHubApi.NodeExample | github_api.py:301 | `"https://github.com/nodejs/node.git"` gives `("nodejs", "node")`. |
| GitHubApi.EmptyOwnerExample | github_api.py:125-129 | Segments are not validated: `"github.com//x"` gives `("", "x")`. |
| GitHubApi.OwnerOnlyExample | github_api.py:126-132 | A single segment gives `None`. |
| TimeWindow.ParseCveTime | analyze_time_window.py:28-54 | Any value read is valid. When one of the three `Z` formats matches, the reading succeeds and the value is labelled UTC. |
| TimeWindow.ParseFirstAppend | analyze_time_window.py:35-47 | Trying a list of formats is trying the first part, then the rest. |
| TimeWindow.CveTimeAgrees | analyze_time_window.py:35-45 | When a `Z` format matches, this reader and `parse_cve_published_date` agree, except that this one attaches UTC. |
| TimeWindow.CveTimeExample | analyze_time_window.py:31 | `"2020-12-11T19:15Z"` reads as 2020-12-11 19:15 UTC. |
| TimeWindow.ParseCommitTime | analyze_time_window.py:56-80 | Every value read is valid and aware. |
| TimeWindow.PlusMeansAware | analyze_time_window.py:65-69 | Text with a `+` that `fromisoformat` accepts is aware. |
| TimeWindow.CommitPlusZero | analyze_time_window.py:67-69 | Text ending in `+00` is read with the offset widened to `+00:00`. |
| TimeWindow.CommitPlusOther | analyze_time_window.py:65-69 | Text with a `+` not ending in `+00` goes to `fromisoformat` unchanged. |
| TimeWindow.CommitNoPlusZero | analyze_time_window.py:70-73 | Text without `+` ending in `00` has those two characters replaced by `+00:00`. |
| TimeWindow.CommitUtcText | analyze_time_window.py:59-69 | `"YYYY-MM-DD HH:MM:SS[.ffffff]+00"` reads as that time, UTC. |
| TimeWindow.CommitStrEast | analyze_time_window.py:65-69 | `str(dt)` of a value with a non-negative whole-minute offset reads back as `dt`. |
| TimeWindow.CommitNaiveWholeMinute | analyze_time_window.py:70-80 | `str(dt)` of a naive time with seconds `00` is refused: its last two digits are replaced. |
| TimeWindow.CommitStrWestWholeHour | analyze_time_window.py:70-80 | `str(dt)` of a value with a negative whole-hour offset is refused: the `00` of the offset is replaced. |
| TimeWindow.CalculateTimeDiff | analyze_time_window.py:118-135 | The difference exists iff both texts parse and the disclosure is aware. |
| TimeWindow.TimeDiffSign | analyze_time_window.py:127-133 | The distance is the commit's UTC instant minus the disclosure's. It is positive iff the commit is later and zero iff the two are the same instant. |
| TimeWindow.TimeDiffExample | analyze_time_window.py:118-135 | The documented pair of sample formats at the same minute is zero apart. |
| TimeWindow.ReadableAll | analyze_time_window.py:166-184 | Nothing is dropped iff every row reads. |
| TimeWindow.ReadableFrom | analyze_time_window.py:171 | Every readable distance is the reading of some row. |
| TimeWindow.ReadableHas | analyze_time_window.py:165-184 | Every row that reads contributes its distance; failures are skipped. |
| TimeWindow.TimeWindowAnalyzer.constructor | analyze_time_window.py:23-26 | `time_diffs` starts empty. |
| TimeWindow.TimeWindowAnalyzer.CollectDiffs | analyze_time_window.py:161-184 | `time_diffs` becomes the readable distances in row order. `before` counts the negative ones, and `before + after` is their number. |
| TimeWindow.TimeWindowAnalyzer.Analyze | analyze_time_window.py:137-193 | With no rows, nothing changes and there is no report. Otherwise `time_diffs` is reset and holds the readable distances, the counters split them by sign, and the report describes them. |
| TimeWindow.TimeWindowAnalyzer.Statistics | analyze_time_window.py:195-257 | There is no report iff `time_diffs` is empty. Otherwise the report holds the sample size, the counters, the extremes, the value at each percentile, the distribution table and the recommended 75th, 90th and 95th percentiles. |
| TimeWindow.Sort | analyze_time_window.py:223 | `sorted(abs_diffs)` is ascending and a permutation. |
| TimeWindow.InsertAscending | analyze_time_window.py:223 | Inserting into an ascending list keeps it ascending and adds exactly that element. |
| TimeWindow.SortEnds | analyze_time_window.py:216-217 | The first and last sorted values are members and bound every distance, so they are `min` and `max`. |
| TimeWindow.PercentileIndex | analyze_time_window.py:226-229 | `int(n·p/100)`, clamped to `n-1`, is a valid index of a non-empty list. Below 100 it is the rank with `p` per cent of the values before it. |
| TimeWindow.PercentileMonotone | analyze_time_window.py:226-229 | A higher percentile never selects an earlier index. |
| TimeWindow.PercentilesAscend | analyze_time_window.py:223-230 | On the sorted list, percentile values do not decrease with `p`. |
| TimeWindow.PercentileValues | analyze_time_window.py:224-230 | The loop yields the value at each of 50, 75, 90, 95 and 99 per cent. |
| TimeWindow.BucketOf | analyze_time_window.py:233-244 | The half-open day ranges cover [0, ∞) and are disjoint: every distance lies in exactly one. |
| TimeWindow.HistogramTotal | analyze_time_window.py:233-246 | The counts sum to the number of distances. |
| TimeWindow.CountBuckets | analyze_time_window.py:243-244 | The counting loops yield exactly the distribution table. |
| TimeWindow.ReportTotal | analyze_time_window.py:206-246 | The table of a report accounts for every sample. |
| TimeWindow.ReportAscending | analyze_time_window.py:223-257 | The reported percentiles and the recommended 75th, 90th and 95th percentiles do not decrease. |

## Findings

| source | as written | input that shows it | evidently intended | confidence | as-written member | corrected member |
|---|---|---|---|---|---|---|
| time_utils.py:137-145 | `since_dt <= commit_dt <= until_dt`. The commit date comes from `fromisoformat` after `Z` becomes `+00:00`, so it is aware. The bounds come from `strptime`, so they are naive. The comparison raises `TypeError` and the handler returns `False`. | the commit date `"2020-02-04T17:15:00Z"` against the window `calculate_time_range("2020-02-04T17:15Z")` | the bounds, written with a `Z`, are UTC, so a GitHub commit date inside the window is reported inside | high; not executed | TimeUtils.GithubCommitNeverInWindow | TimeUtils.WindowBoundsInside |

The corrected test is `TimeUtils.IsCommitInRangeUtc`. `TimeUtils.GithubInWindowUtc` states what it means for any GitHub commit date. Nothing else in the repository calls `is_commit_in_range`.

## Left out

- Logging, the database connection and `get_correct_fixes` (a PostgreSQL query) are left out. The analyser receives its rows as a parameter.
- The HTTP client of github_api.py is left out. Nothing outside `parse_repo_url` is modelled.
- main.py, `export_results` and `format_time_delta` are left out. They are file I/O, orchestration and float formatting.
- Floating point is not modelled:
  - Distances are integer microseconds instead of float days. Neither the sign nor the order of distances changes.
  - The mean, median, standard deviation, percentages and `%.1f` output are not computed.
  - The histogram compares microseconds with whole-day boundaries, so no float rounding at a boundary is modelled.
  - `int(n * 0.75)`, `int(n * 0.90)` and `int(n * 0.95)` are taken as `n·75/100`, `n·90/100` and `n·95/100` rounded down, which agree for every realistic list length.
- The sample-printing branch (`idx <= 5`) of `analyze` is logging only and is not modelled.
- `TimeWindow.ParseCommitTime`: no lemma computes the value of its last branch, the `%Y-%m-%d %H:%M:%S` reading labelled UTC. Only validity and awareness are stated for that branch.
- `TimeWindow.Fix`: `committer_date` is taken as the text `str()` gives for the stored value. How the database driver types that column is not part of this model.
- The scores of the literal sample messages at commit_matcher.py:269-274 (for example 120 for the first one, and -10 for `"Update documentation"`) are not computed. Showing that each of the 58 keywords is absent from a literal message costs more than the solver budget allows. The per-rule lemmas cover every message. The identifiers extracted from the second message are computed (`CommitMatcher.ExtractExample`).
- The sample-time test at time_utils.py:178 has no literal lemma. `"2020-02-04T17:15:30.123Z"` is covered by the general `TimeUtils.ParseCveFraction` only.
- `CommitMatcher.Analysis`: a commit object whose `commit` or `author` value is present but `None` raises in the source. The model only has absent keys.
- The text of the "other CVEs" entry joins a Python set, in hash order. The model keeps the set itself.
- Case mapping is ASCII only: `lower()` and `upper()` change the letters A–Z and a–z and nothing else. White space is Python's full `str.isspace`.
- Digits are ASCII only (`Text.IsDigit`). Python's `\d` and `int()` accept every Unicode decimal digit, so a message such as `"CVE-２０２０-１２３４"` (full-width digits) yields an identifier in the source and none in the model.
- `fromisoformat` outside the grammar above is treated as a parse failure.
- glibc's `strftime` prints years below 1000 without zero padding; the model pads to four digits.
- The `except` branch of `parse_repo_url` is not modelled, because no step of the function can raise on a string.
