# GitHub progress and Dogecoin news exporters, modelled in Dafny

This project models the data path of a small reporting tool. The tool asks the
GitHub REST API for the commits, closed issues and closed pull requests of a
repository. It keeps only the records whose date lies in a window and writes a
Markdown progress report under `daily_progress/<owner>_<repo>/`. A second client
scrapes the Dogecoin news list from cryptopanic.com. It completes each relative
link and writes a numbered Markdown list under `dogecoin_top_news/<date>/<hour>.md`.

The model is pure: each operation is a function, or a method with a loop,
from its inputs to a `Result`. Every Python exception on the modelled paths
becomes an `Err` carrying its cause (`Outcomes.Error`). Exceptions are never
excluded by preconditions. For example, comparing a naive item date with a
given bound raises `TypeError` in Python and is `Err(NaiveAwareComparison)` here. The modules follow the program:

- `Outcomes`: `Option`, `Result`, the error kinds, and `Artifact` (a file path plus the full text the file ends up holding).
- `Text`: `str.split`, `str.replace`, `str()` of integers, zero-padded digits, and POSIX `os.path.join`.
- `JsonValues`: decoded JSON, and `get_nested_value` (a dotted lookup through nested dicts with `.get`).
- `Calendar`: proleptic Gregorian dates, day ordinals as Python's `date.toordinal` counts them, `date - timedelta`, and `date.isoformat`.
- `IsoTime`: the `datetime.fromisoformat` forms the tool meets, `isoformat`, and instants in seconds since the epoch.
- `DateFilter`: `filter_by_date`.
- `Fetcher`: `fetch_commits`, `fetch_issues`, `fetch_pull_requests` and `fetch_updates`. The HTTP call is an oracle from a request to a body or a failing status.
- `ProgressExport`: `export_daily_progress`, `export_progress_by_date_range` and `export_progress_by_since_until`.
- `NewsExport`: `parse_news`, `fetch_top_news` and `export_top_news`.

Two behaviours of the code deserve a note.

- A date-only bound such as `until = "2024-01-01"` means 00:00 UTC of that day, because the code replaces the parsed value's zone with UTC. So a record closed at `2024-01-01T23:59:59Z` is dropped (`DateFilter.DateOnlyUntilIsMidnight`). One might expect that record to be kept; `filter_by_date` drops it because the bound is read as midnight.
- For the same reason, the date-range export never lists anything closed on the current day after midnight UTC (`ProgressExport.RangeReportWindow`).

## Model

| member | source | states |
|---|---|---|
| Text.Split | src/github_client.py:92 | `key.split('.')` always yields at least one part |
| Text.SplitPartsFree | src/github_client.py:92 | no part of a split contains the separator |
| Text.JoinSplit | src/github_client.py:92 | joining the parts of a split with the separator gives back the original string |
| Text.SplitJoin | src/github_client.py:92 | splitting a join of separator-free parts gives back exactly those parts |
| Text.SplitAroundSeparator | src/github_client.py:92 | splitting `a + sep + b` is splitting `a` followed by splitting `b` |
| Text.ReplaceChar | src/github_client.py:110 | `repo.replace("/", "_")` keeps the length, turns every `/` into `_`, leaves no `/`, and keeps every other character in place |
| Text.ReplaceWithAbsent | src/github_client.py:83 | `.replace('Z', '+00:00')` leaves a string without `Z` unchanged |
| Text.ReplaceWithAppend | src/github_client.py:83 | the replacement acts on each part of a concatenation independently, so every `Z` is rewritten |
| Text.NatToDecimal | src/github_client.py:118 | `str(n)` of a natural number is non-empty decimal digits, with no leading zero except for 0 itself |
| Text.NatToDecimalValue | src/github_client.py:118 | the digits of `str(n)` read back as `n` |
| Text.IntToDecimal | src/github_client.py:118 | `str(n)` of any integer is its magnitude's digits, after a `-` exactly when negative |
| Text.IntToDecimalValue | src/github_client.py:118 | read back, `str(n)` gives the digits of `n`, or a `-` and then the digits of `-n` |
| Text.FixedDigitsValue | src/github_client.py:103 | a zero-padded rendering of a number below 10^width reads back as that number |
| Text.SplitUnlines | src/github_client.py:114-121 | text written as separator-free lines, each followed by the separator, splits back into exactly those lines and then the split of what follows |
| Text.PathJoin | src/github_client.py:110-113 | POSIX `os.path.join`: an absolute second part replaces the first; a relative second part follows an empty or `/`-ended first part directly, and any other first part after exactly one added `/` |
| JsonValues.Walk | src/github_client.py:93-97 | a path that meets a non-dict fails on the key it was about to look up, and every failure names a key of the path |
| JsonValues.Step | src/github_client.py:94-96 | `data.get(k)` fails exactly on a non-dict; it is absent exactly when the key is missing or null; otherwise it is the stored value |
| JsonValues.GetNestedValue | src/github_client.py:91-97 | a found value is never JSON null |
| JsonValues.WalkNeverYieldsNull | src/github_client.py:94-97 | a walk of one or more keys ends in `None` rather than handing back a null |
| JsonValues.WalkAppend | src/github_client.py:93-94 | walking the keys `a + b` is walking `a` and then walking `b` from where `a` ended |
| JsonValues.DottedLookup | src/github_client.py:91-97 | looking up `a.b` is looking up `a` and then `b` inside the value found |
| JsonValues.SingleKeyLookup | src/github_client.py:91-97 | a path without dots is a single `.get`: the value, `None` for a missing or null key, or an error on a non-dict |
| JsonValues.WalkAbsentAt | src/github_client.py:93-96 | the lookup returns `None` exactly when some prefix of the path resolves to a dict lacking the next key or holding null there |
| Calendar.ToOrdinal | src/github_client.py:133 | the day number of a valid date lies in 1..3652059, inside the range of its own year |
| Calendar.FromOrdinal | src/github_client.py:133 | every day number in range belongs to a valid date whose day number it is |
| Calendar.OrdinalRoundTrip | src/github_client.py:133 | converting a date to its day number and back gives the same date |
| Calendar.OrdinalOrder | src/github_client.py:133 | day numbers order dates by year, then month, then day |
| Calendar.SubtractDays | src/github_client.py:133 | `today - timedelta(days)` succeeds exactly when the result is in years 1..9999; the result is exactly `days` days earlier; otherwise the error is OverflowError |
| Calendar.FormatDate | src/github_client.py:103 | `date.isoformat()` is ten characters; `ParseFormatDate` reads it back as the date, and `FormatDateHasNo` says it holds only digits and `-` |
| Calendar.ParseDate | src/github_client.py:69-71 | what `fromisoformat` accepts as a date is a valid date; `FormatParsedDate` says the string is that date's rendering |
| Calendar.ParseFormatDate | src/github_client.py:135 | parsing the `YYYY-MM-DD` rendering of a date gives back the date |
| Calendar.FormatParsedDate | src/github_client.py:69-71 | a string that parses as a date is exactly that date's rendering |
| Calendar.FormatDateHasNo | src/github_client.py:103 | a rendered date contains only digits and `-` |
| IsoTime.ParseDateTime | src/github_client.py:159-160 | whatever `fromisoformat` accepts is a valid date-time with an offset of less than a day |
| IsoTime.ParseFormatDateTime | src/github_client.py:159-166 | `fromisoformat(t.isoformat()) == t` for every valid value, naive or aware |
| IsoTime.ParseOffset | src/github_client.py:83 | a parsed zone suffix is an offset of less than a day either way; `ParseFormatOffset` is its round trip with `FormatOffset` |
| IsoTime.ParseOffsetText | src/github_client.py:83 | a `±HH:MM` suffix parses to its signed hours and minutes exactly when they come to less than a day; neither field is range-checked alone |
| IsoTime.OffsetFieldsUnchecked | src/github_client.py:83 | `+00:75` is 75 minutes east and `-05:60` six hours west, while `+23:60` (a whole day) is refused |
| IsoTime.FormatOffset | src/github_client.py:166 | `isoformat` writes no suffix for a naive value and six characters `±HH:MM` for an aware one; `OffsetSlices` says where sign, hours and minutes sit |
| IsoTime.FormatDateTime | src/github_client.py:166 | `isoformat()` is nineteen characters plus the zone suffix; `ParseFormatDateTime` reads it back as the same value |
| IsoTime.ParsedChars | src/github_client.py:159-160 | a string `fromisoformat` accepts holds only digits and the marks `-`, `T`, `:`, `Z`, `+`, so it never contains a newline |
| IsoTime.ParseFormatOffset | src/github_client.py:83 | the `±HH:MM` suffix `isoformat` writes for an offset parses back to that offset, and no suffix parses back to no zone |
| IsoTime.ParseDateOnly | src/github_client.py:69-71 | a date-only string reads as naive midnight of that date |
| IsoTime.ReplaceIgnoresOffset | src/github_client.py:69-71 | after `.replace(tzinfo=UTC)` the instant is the wall clock read as UTC, whatever zone was there |
| IsoTime.WithinDay | src/github_client.py:85 | every second of a day is at or after its midnight and before the next, and equals midnight exactly at 00:00:00 |
| IsoTime.EarlierDateEarlierInstant | src/github_client.py:85 | an earlier date is an earlier instant at any time of day |
| DateFilter.ParseBound | src/github_client.py:68-71 | a missing or empty bound is no bound; a given bound fails exactly when it does not parse; otherwise it is its wall clock read as UTC |
| DateFilter.ItemDate | src/github_client.py:81-83 | a failed lookup is the error; an absent or falsy date gives no date; a truthy non-string fails with `NotAString`; a truthy string succeeds exactly when it parses once every `Z` is rewritten, and otherwise fails with `MalformedDate` of the rewritten text |
| DateFilter.KeepItem | src/github_client.py:81-87 | an item's date error is its error; otherwise the test fails exactly when the item has a naive date and some bound is given, and then with `NaiveAwareComparison` |
| DateFilter.NaiveItemAborts | src/github_client.py:80-85 | one record with a naive date makes the whole filter fail once either bound is given |
| DateFilter.KeepIffInWindow | src/github_client.py:81-87 | a record is kept exactly when it has a date, that date is aware or no bound is given, and its instant is inside the inclusive window |
| DateFilter.MissingDateDropped | src/github_client.py:81-82 | a record whose date is missing, null or empty is skipped without error |
| DateFilter.BoundsInclusive | src/github_client.py:85 | a record stamped exactly at `since` or at `until` is kept |
| DateFilter.FilterByDate | src/github_client.py:67-88 | an unparsable `since`, then an unparsable `until`, fails with that string before any record is read; a result never has more records than the input |
| DateFilter.Select | src/github_client.py:79-88 | the filter never returns more records than it was given |
| DateFilter.SelectOkIff | src/github_client.py:79-88 | the loop succeeds exactly when no record raises |
| DateFilter.SelectSubsequence | src/github_client.py:79-88 | the kept records are the input with some left out, in input order |
| DateFilter.SelectMembers | src/github_client.py:79-88 | a record is kept exactly when it is in the input and passes the test |
| DateFilter.SelectCounts | src/github_client.py:79-88 | a passing record occurs in the result as often as in the input, and any other record not at all |
| DateFilter.FilterWindow | src/github_client.py:67-88 | when the filter succeeds, both bounds parsed, the result is an ordered selection of the input, a record is in it exactly when its date is inside the window the bound strings name, and then every copy of it is kept |
| DateFilter.BoundDiscardsOffset | src/github_client.py:68-71 | a bound written with any zone, or none, filters as its wall clock in UTC |
| DateFilter.ItemZuluIsUtc | src/github_client.py:83 | an item stamped `...Z` reads as UTC at its wall clock |
| DateFilter.ZuluRewrite | src/github_client.py:83 | rewriting the `Z` of `<wall clock>Z` gives the wall clock rendered with a `+00:00` zone |
| DateFilter.ItemKeepsOffset | src/github_client.py:83-85 | an item stamped with an explicit offset keeps it, unlike a bound |
| DateFilter.OffsetRecord | src/github_client.py:83-85 | a record stamped with an offset is kept exactly when its wall clock minus that offset is inside the window |
| DateFilter.EastOffsetBeforeUtcBound | src/github_client.py:67-88 | a record closed at 10:00+05:00 passes `until = 06:00` and fails `since = 06:00`, while a bound written `06:00+05:00` still means 06:00 UTC |
| DateFilter.DateBound | src/github_client.py:68-71 | a date-only bound is 00:00:00 UTC of that day |
| DateFilter.DateOnlyUntilIsMidnight | src/github_client.py:67-88 | a record closed later on the `until` date is dropped, even when `since` is the same date; a date-only `since` keeps it |
| Fetcher.CommitParams | src/github_client.py:27-31 | a commit query carries `since` and `until` exactly when they are truthy, and nothing else |
| Fetcher.ClosedParams | src/github_client.py:43-47 | an issue or pull-request query always asks for closed items and always carries both bound keys |
| Fetcher.RequestFor | src/github_client.py:26-60 | each sub-resource is requested at `https://api.github.com/repos/<repo>/<resource>`; commits send only the truthy bounds, issues and pull requests send `state=closed` and both bound keys, and only commits omit `state=closed` |
| Fetcher.FetchFromWindow | src/github_client.py:33-37 | a failing status raises and names the sub-resource; a success means the status was good and both bounds parsed, and the list is an ordered selection of the response holding exactly the records dated inside the window, each as often as the response holds it |
| Fetcher.UpdatesSucceedIff | src/github_client.py:15-23 | the bundle exists exactly when every sub-resource answered with a good status and its records could be filtered |
| Fetcher.AnyFailureAborts | src/github_client.py:15-23 | a failing status on any of the three requests leaves no bundle; if the earlier requests succeeded, the error names that sub-resource |
| Fetcher.ListedWithin | src/github_client.py:15-88 | once the bounds are known to parse, every record of a bundle list has its own date inside that window |
| Fetcher.BundleFromOwnResponses | src/github_client.py:15-65 | each list of a bundle is an ordered selection of its own response only, and holds exactly the records dated inside the window, each as often as the response holds it |
| ProgressExport.RepoDir | src/github_client.py:110 | the directory name has the repository's length, has `_` wherever the repository has `/`, contains no `/`, and keeps every other character |
| ProgressExport.RepoDirKeepsOtherCharacters | src/github_client.py:110 | two repositories share a directory only if they agree everywhere except where one has `/` and the other `_` |
| ProgressExport.ProgressPathShape | src/github_client.py:110-113 | the report sits at `daily_progress/<dir>/<stem>.md`, or at `daily_progress/<stem>.md` for an empty repository name |
| ProgressExport.WindowPathShape | src/github_client.py:141-142 | a window report is named `<since>_to_<until>.md` in the repository's directory |
| ProgressExport.PyStr | src/github_client.py:118 | `str()` fails exactly on a list or dict, naming the key, and gives a string value unchanged |
| ProgressExport.Field | src/github_client.py:118 | `str(item[key])` succeeds exactly when the item is a dict holding the key with a scalar value; a missing key is `KeyError`; a string field is taken as is |
| ProgressExport.ItemLine | src/github_client.py:118 | a line exists exactly when both the title and the number render, the title being read first; it starts with `- ` (`ItemLineReadsBack` gives the rest) |
| ProgressExport.ItemLines | src/github_client.py:117-121 | there is one line per item, in order, and rendering fails exactly when some item lacks a renderable title or number |
| ProgressExport.ItemLineReadsBack | src/github_client.py:118 | the line of an item reads back: `- `, the title, ` #`, then digits whose value is the number |
| ProgressExport.RenderReport | src/github_client.py:114-121 | a report renders exactly when every issue and pull-request line renders |
| ProgressExport.ReportLines | src/github_client.py:114-121 | line by line, a report is: title, two blank lines, issue heading, one line per issue, a blank line, pull-request heading, one line per pull request |
| ProgressExport.RenderedLines | src/github_client.py:115-121 | the writes of a report are its layout lines, each ended by a newline |
| ProgressExport.PublishedLines | src/github_client.py:110-121 | a published report, split at newlines, is its title, the two headings, and one line per fetched issue and pull request, with commits never written |
| ProgressExport.ExportDaily | src/github_client.py:100-124 | a failed fetch is the export's error; when the export succeeds and the repository name is non-empty, the report is at `daily_progress/<dir>/<today>.md` |
| ProgressExport.DailyReportLines | src/github_client.py:114-121 | the daily report's lines are its title naming the repository and date, then the fetched issues and pull requests, one line each |
| ProgressExport.DailyReportWindow | src/github_client.py:103-108 | every issue and pull request in the daily report comes from its own response and was closed at or after today's midnight UTC |
| ProgressExport.DailyIgnoresCommits | src/github_client.py:108-121 | the commit response can make the daily export fail, but never changes what it writes |
| ProgressExport.ExportRange | src/github_client.py:126-154 | a start date outside years 1..9999 fails before any fetch; otherwise the report is named `<start>_to_<today>.md`, with the start exactly `days` days before today |
| ProgressExport.RangeFetched | src/github_client.py:133-135 | a date-range report exists only if the fetch from the start date to today succeeded |
| ProgressExport.RangeReportLines | src/github_client.py:144-151 | the date-range report's lines are its title naming the repository and both dates, the headings counting `days`, and one line per fetched issue and pull request |
| ProgressExport.RangeReportWindow | src/github_client.py:133-135 | every listed issue or pull request was closed between the start date's midnight and today's midnight UTC |
| ProgressExport.ExportSinceUntil | src/github_client.py:156-184 | an unparsable `since`, then an unparsable `until`, fails with that string; otherwise the report is named by the two strings as given |
| ProgressExport.SinceLabelIsRelative | src/github_client.py:171-172 | a parsable `since` starts with a digit, so the report name never becomes an absolute path |
| ProgressExport.SinceUntilFetched | src/github_client.py:159-166 | a since/until report exists only if the fetch with both bounds' `isoformat()` in UTC succeeded |
| ProgressExport.SinceUntilReportLines | src/github_client.py:174-181 | the since/until report's lines are its title naming the repository and the two strings as given, the fixed headings, and one line per fetched issue and pull request |
| ProgressExport.SinceUntilWindow | src/github_client.py:159-166 | every issue and pull request that fetch lists was closed between the two wall clocks read as UTC, whatever zones the caller wrote |
| NewsExport.Anchors | src/dogecoin_news_client.py:59-61 | the title anchors of a page are those of the rows that have one, and there are no more of them than rows |
| NewsExport.AnchorsOfRow | src/dogecoin_news_client.py:59-61 | a row contributes its title anchor, or nothing |
| NewsExport.AnchorsAppend | src/dogecoin_news_client.py:59-66 | anchors keep page order: those of `a + b` are those of `a` followed by those of `b` |
| NewsExport.ParseNews | src/dogecoin_news_client.py:53-68 | parsing fails with `KeyError('href')` exactly when some anchor lacks `href`; otherwise there is one item per anchor |
| NewsExport.ParsedItems | src/dogecoin_news_client.py:59-65 | item `i` of a parsed page is the `i`-th anchor's text, with the site prefixed to its `href` |
| NewsExport.NoNewsIff | src/dogecoin_news_client.py:26-51 | no news is found exactly when the page did not load, an anchor lacks its `href`, or the page has no title anchor |
| NewsExport.LinksCompleted | src/dogecoin_news_client.py:62-65 | every link starts with `https://cryptopanic.com` and continues with the `href` of an anchor on the page that has the same title |
| NewsExport.OneItemPerAnchor | src/dogecoin_news_client.py:59-65 | rows without an anchor are skipped, so there is one item per anchor; one anchor without `href` empties the list |
| NewsExport.Numbered | src/dogecoin_news_client.py:92-93 | there is one numbered line per news item |
| NewsExport.NumberedAt | src/dogecoin_news_client.py:92-93 | the line of the `i`-th item carries the number `start + i` |
| NewsExport.NumberedSnoc | src/dogecoin_news_client.py:92-93 | numbering one more item appends one line, numbered after the others |
| NewsExport.RenderNews | src/dogecoin_news_client.py:90-93 | the file holds the title line and a blank line, then the numbered lines counting from 1 |
| NewsExport.ExportTopNews | src/dogecoin_news_client.py:70-96 | nothing is written exactly when no news was found; otherwise the file is `<date>/<hour>.md` under `dogecoin_top_news`, with missing parts taken from the clock |
| NewsExport.DefaultNewsPath | src/dogecoin_news_client.py:78-88 | with clock defaults the file is `dogecoin_top_news/YYYY-MM-DD/HH.md` |
| NewsExport.NewsLines | src/dogecoin_news_client.py:90-93 | line by line, the file is its title, a blank line, then the numbered items in list order |

## Left out

- The HTTP transport: the authorization header, the query-string encoding, and JSON decoding. The oracle returns either the decoded list or the failing status. A response body that is not a list is not modelled.
- Filesystem effects: `os.makedirs`, and opening and overwriting the file. An export returns the path and the full content. If a `KeyError` occurs halfway through the writes, the file keeps the lines written so far; the model returns only the error.
- Logging: it does not affect any result.
- The clock: `datetime.now` is a parameter. The news export reads the clock twice, so the date reading and the hour reading are separate inputs. Each reading is assumed to be a valid local date or hour.
- Selenium and BeautifulSoup. A page is the list of its news rows, each with the title anchor `find` returned or nothing. `get_text(strip=True)` is taken as the anchor's given text. Whether the page loads in time is the page being present or absent.
- IsoTime.ParseDateTime: only the `datetime.fromisoformat` forms the tool produces or reads are accepted: `YYYY-MM-DD`, and `YYYY-MM-DDTHH:MM:SS` followed by nothing, `Z` or `±HH:MM` (each field two digits, the whole offset under a day). Fractional seconds, other separators, week dates and the other ISO forms Python 3.11 also accepts are read as malformed.
- JsonValues.Json: numbers are integers. Floats never occur in the fields the tool reads.
- ProgressExport.PyStr: `str()` of a list or dict value is an `UnrenderableValue` error instead of Python's text.
- Calendar.FromOrdinal: it searches year by year and month by month instead of using Python's 400-year-cycle arithmetic. It is proved to be the inverse of `ToOrdinal` in both directions, so it computes the same mapping.
- NewsExport.ExportTopNews: the default date is zero-padded to four digits. glibc `strftime('%Y')` leaves years below 1000 unpadded, but the local clock never reads such a year.
- The notifier, the command handler, the web UI and the JavaScript test are outside the core modelled here.
