/** The three report exports of src/github_client.py: `export_daily_progress`,
    `export_progress_by_date_range` and `export_progress_by_since_until`.
    The clock becomes the `today` parameter, and instead of creating the
    directory and overwriting the file each export returns the path and the
    complete Markdown text the file is left holding. */
module ProgressExport {
  import opened Outcomes
  import Text
  import opened JsonValues
  import opened Calendar
  import opened IsoTime
  import opened DateFilter
  import opened Fetcher

  const NewLine: char := '\n'

  /* ---------------------------------------------------------------- paths */

  /** `repo.replace("/", "_")`: the repository as one directory name. */
  function RepoDir(repo: string): (dir: string)
    ensures |dir| == |repo| && '/' !in dir
    ensures forall i :: 0 <= i < |repo| && repo[i] != '/' ==> dir[i] == repo[i]
    ensures forall i :: 0 <= i < |repo| && repo[i] == '/' ==> dir[i] == '_'
  {
    Text.ReplaceChar(repo, '/', '_')
  }

  /** `os.path.join(os.path.join('daily_progress', RepoDir(repo)), stem + '.md')`. */
  function ProgressPath(repo: string, stem: string): string {
    Text.PathJoin(Text.PathJoin("daily_progress", RepoDir(repo)), stem + ".md")
  }

  /** The report of a repository sits one directory below `daily_progress`,
      named by the stem; an empty repository name collapses that directory. */
  lemma ProgressPathShape(repo: string, stem: string)
    requires |stem| == 0 || stem[0] != '/'
    ensures |repo| > 0 ==> ProgressPath(repo, stem) == "daily_progress/" + RepoDir(repo) + "/" + stem + ".md"
    ensures |repo| == 0 ==> ProgressPath(repo, stem) == "daily_progress/" + stem + ".md"
  {
    var dir := RepoDir(repo);
    var file := stem + ".md";
    assert file[0] == (if |stem| == 0 then '.' else stem[0]);
    if |repo| > 0 {
      assert dir[|dir| - 1] != '/' by {
        assert dir[|dir| - 1] in dir;
      }
      var inner := "daily_progress/" + dir;
      assert Text.PathJoin("daily_progress", dir) == inner;
      assert inner[|inner| - 1] == dir[|dir| - 1];
    } else {
      assert Text.PathJoin("daily_progress", dir) == "daily_progress/";
    }
  }

  /** The path of a report labelled by a window `<since>_to_<until>`. */
  lemma WindowPathShape(repo: string, since: string, until: string)
    requires |since| > 0 && since[0] != '/'
    ensures |repo| > 0 ==>
      (ProgressPath(repo, since + "_to_" + until)
       == "daily_progress/" + RepoDir(repo) + "/" + since + "_to_" + until + ".md")
  {
    var stem := since + "_to_" + until;
    assert stem[0] == since[0];
    ProgressPathShape(repo, stem);
    assert "daily_progress/" + RepoDir(repo) + "/" + stem + ".md"
      == "daily_progress/" + RepoDir(repo) + "/" + since + "_to_" + until + ".md";
  }

  /** Distinct repositories that differ other than by `/` versus `_` never
      share a report directory. */
  lemma RepoDirKeepsOtherCharacters(a: string, b: string)
    requires RepoDir(a) == RepoDir(b)
    ensures |a| == |b|
    ensures forall i :: 0 <= i < |a| && a[i] != '/' && a[i] != '_' ==> b[i] == a[i]
  {
    forall i | 0 <= i < |a| && a[i] != '/' && a[i] != '_'
      ensures b[i] == a[i]
    {
      assert RepoDir(a)[i] == a[i];
      assert RepoDir(b)[i] == a[i];
    }
  }

  /* ---------------------------------------------------------------- lines */

  /** `str(value)` for the JSON scalars; lists and dicts are outside the model. */
  function PyStr(v: Json, key: string): (r: Result<string>)
    ensures r.Err? <==> v.JArray? || v.JObject?
    ensures r.Err? ==> r.error == UnrenderableValue(key)
    ensures v.JString? ==> r == Ok(v.s)
  {
    match v
    case JNull => Ok("None")
    case JBool(b) => Ok(if b then "True" else "False")
    case JNumber(n) => Ok(Text.IntToDecimal(n))
    case JString(s) => Ok(s)
    case _ => Err(UnrenderableValue(key))
  }

  /** `str(item[key])`, raising `KeyError` for a missing key. */
  function Field(item: Json, key: string): (r: Result<string>)
    ensures r.Ok? <==> item.JObject? && key in item.fields && !item.fields[key].JArray? && !item.fields[key].JObject?
    ensures item.JObject? && key !in item.fields ==> r == Err(MissingKey(key))
    ensures item.JObject? && key in item.fields && item.fields[key].JString? ==> r == Ok(item.fields[key].s)
  {
    match item
    case JObject(fields) => if key in fields then PyStr(fields[key], key) else Err(MissingKey(key))
    case _ => Err(NotAMapping(key))
  }

  /** `f"- {item['title']} #{item['number']}"`. */
  function ItemLine(item: Json): (r: Result<string>)
    ensures r.Ok? <==> Field(item, "title").Ok? && Field(item, "number").Ok?
    ensures Field(item, "title").Err? ==> r == Err(Field(item, "title").error)
    ensures r.Ok? ==> |r.value| >= 4 && r.value[..2] == "- "
  {
    match Field(item, "title")
    case Err(e) => Err(e)
    case Ok(title) =>
      match Field(item, "number")
      case Err(e) => Err(e)
      case Ok(number) => Ok("- " + title + " #" + number)
  }

  /** The line of each item, in order; the first unrenderable item aborts. */
  function ItemLines(items: seq<Json>): (r: Result<seq<string>>)
    ensures r.Ok? <==> forall i :: 0 <= i < |items| ==> ItemLine(items[i]).Ok?
    ensures r.Ok? ==> |r.value| == |items|
    ensures r.Ok? ==> forall i :: 0 <= i < |items| ==> ItemLine(items[i]) == Ok(r.value[i])
    decreases |items|
  {
    if |items| == 0 then Ok([])
    else
      match ItemLine(items[0])
      case Err(e) => Err(e)
      case Ok(line) =>
        match ItemLines(items[1..])
        case Err(e) => Err(e)
        case Ok(rest) =>
          assert forall i :: 1 <= i < |items| ==> items[1..][i - 1] == items[i];
          Ok([line] + rest)
  }

  /** An item with a string title and a non-negative number renders as a line
      from which both read back: the title after `- `, the number after the
      final ` #`. */
  lemma ItemLineReadsBack(title: string, number: nat, fields: map<string, Json>)
    requires "title" in fields && fields["title"] == JString(title)
    requires "number" in fields && fields["number"] == JNumber(number)
    ensures ItemLine(JObject(fields)).Ok?
    ensures var line := ItemLine(JObject(fields)).value;
      && |line| > 4 + |title|
      && line[..2] == "- " && line[2..2 + |title|] == title
      && line[2 + |title|..4 + |title|] == " #"
      && Text.AllDigits(line[4 + |title|..]) && Text.DigitsValue(line[4 + |title|..]) == number
  {
    var digits := Text.IntToDecimal(number);
    Text.IntToDecimalValue(number);
    assert Field(JObject(fields), "title") == Ok(title);
    assert Field(JObject(fields), "number") == Ok(digits);
    var line := "- " + title + " #" + digits;
    assert ItemLine(JObject(fields)) == Ok(line);
    assert line[..2] == "- ";
    assert line[2..2 + |title|] == title;
    assert line[2 + |title|..4 + |title|] == " #";
    assert line[4 + |title|..] == digits;
  }

  /* ---------------------------------------------------------------- documents */

  /** The writes of one report: the title line and a blank line, then each
      section as a blank line, its heading and one line per item. Commits are
      never written. */
  function RenderReport(title: string, issuesHeading: string, pullsHeading: string,
                        issues: seq<Json>, pulls: seq<Json>): (r: Result<string>)
    ensures r.Ok? <==> ItemLines(issues).Ok? && ItemLines(pulls).Ok?
  {
    match ItemLines(issues)
    case Err(e) => Err(e)
    case Ok(issueLines) =>
      match ItemLines(pulls)
      case Err(e) => Err(e)
      case Ok(pullLines) =>
        Ok(title + "\n\n"
           + "\n" + issuesHeading + "\n"
           + Text.Unlines(issueLines, NewLine)
           + "\n" + pullsHeading + "\n"
           + Text.Unlines(pullLines, NewLine))
  }

  predicate NoNewLine(lines: seq<string>) {
    forall i :: 0 <= i < |lines| ==> NewLine !in lines[i]
  }

  /** Read back line by line, a report is: its title, two blank lines, the
      issue heading, exactly one line per issue in bundle order, a blank line,
      the pull-request heading, one line per pull request, and the empty
      remainder after the final newline. */
  lemma ReportLines(title: string, issuesHeading: string, pullsHeading: string,
                    issues: seq<Json>, pulls: seq<Json>)
    requires RenderReport(title, issuesHeading, pullsHeading, issues, pulls).Ok?
    requires NoNewLine([title, issuesHeading, pullsHeading])
    requires NoNewLine(ItemLines(issues).value) && NoNewLine(ItemLines(pulls).value)
    ensures Text.Split(RenderReport(title, issuesHeading, pullsHeading, issues, pulls).value, NewLine)
      == [title, "", "", issuesHeading] + ItemLines(issues).value
         + ["", pullsHeading] + ItemLines(pulls).value + [""]
  {
    var il := ItemLines(issues).value;
    var pl := ItemLines(pulls).value;
    var all := [title, "", "", issuesHeading] + il + ["", pullsHeading] + pl;
    RenderedLines(title, issuesHeading, pullsHeading, il, pl);
    assert NoNewLine(all) by {
      forall i | 0 <= i < |all| ensures NewLine !in all[i] {
        if i < 4 {
          assert all[i] in [title, issuesHeading, pullsHeading] || all[i] == "";
        } else if i < 4 + |il| {
          assert all[i] == il[i - 4];
        } else if i < 6 + |il| {
          assert all[i] == "" || all[i] == pullsHeading;
        } else {
          assert all[i] == pl[i - 6 - |il|];
        }
      }
    }
    Text.SplitUnlines(all, "", NewLine);
    assert Text.Unlines(all, NewLine) + "" == Text.Unlines(all, NewLine);
    assert Text.Split("", NewLine) == [""];
  }

  /** The writes of a report are the lines of its layout, each ended by a newline. */
  lemma RenderedLines(title: string, issuesHeading: string, pullsHeading: string,
                      il: seq<string>, pl: seq<string>)
    ensures title + "\n\n" + "\n" + issuesHeading + "\n" + Text.Unlines(il, NewLine)
            + "\n" + pullsHeading + "\n" + Text.Unlines(pl, NewLine)
      == Text.Unlines([title, "", "", issuesHeading] + il + ["", pullsHeading] + pl, NewLine)
  {
    var head := [title, "", "", issuesHeading] + il;
    var tail := ["", pullsHeading] + pl;
    HeadLines(title, issuesHeading, il);
    TailLines(pullsHeading, pl);
    Text.UnlinesAppend(head, tail, NewLine);
    assert [title, "", "", issuesHeading] + il + ["", pullsHeading] + pl == head + tail;
    Regroup(title + "\n\n" + "\n" + issuesHeading + "\n" + Text.Unlines(il, NewLine),
            pullsHeading, Text.Unlines(pl, NewLine));
  }

  lemma Regroup(a: string, h: string, u: string)
    ensures a + "\n" + h + "\n" + u == a + ("\n" + h + "\n" + u)
  {
  }

  /** The title, two blank lines and the issue section, each line ended by a newline. */
  lemma HeadLines(title: string, issuesHeading: string, il: seq<string>)
    ensures title + "\n\n" + "\n" + issuesHeading + "\n" + Text.Unlines(il, NewLine)
      == Text.Unlines([title, "", "", issuesHeading] + il, NewLine)
  {
    var h3 := [issuesHeading] + il;
    var h2 := [""] + h3;
    var h1 := [""] + h2;
    assert [title, "", "", issuesHeading] + il == [title] + h1;
    Text.UnlinesCons(issuesHeading, il, NewLine);
    Text.UnlinesCons("", h3, NewLine);
    Text.UnlinesCons("", h2, NewLine);
    Text.UnlinesCons(title, h1, NewLine);
    HeadConcat(title, issuesHeading, Text.Unlines(il, NewLine));
  }

  lemma HeadConcat(title: string, h: string, u: string)
    ensures title + [NewLine] + ("" + [NewLine] + ("" + [NewLine] + (h + [NewLine] + u)))
      == title + "\n\n" + "\n" + h + "\n" + u
  {
    assert [NewLine] == "\n";
  }

  /** A blank line and the pull-request section, each line ended by a newline. */
  lemma TailLines(pullsHeading: string, pl: seq<string>)
    ensures "\n" + pullsHeading + "\n" + Text.Unlines(pl, NewLine)
      == Text.Unlines(["", pullsHeading] + pl, NewLine)
  {
    var t := [pullsHeading] + pl;
    assert ["", pullsHeading] + pl == [""] + t;
    Text.UnlinesCons(pullsHeading, pl, NewLine);
    Text.UnlinesCons("", t, NewLine);
    TailConcat(pullsHeading, Text.Unlines(pl, NewLine));
  }

  lemma TailConcat(h: string, u: string)
    ensures "" + [NewLine] + (h + [NewLine] + u) == "\n" + h + "\n" + u
  {
    assert [NewLine] == "\n";
  }

  /* ---------------------------------------------------------------- exports */

  /** The common tail of the three exports: once the bundle is fetched, write
      the report under `daily_progress/<repo>/<stem>.md`. */
  function Publish(repo: string, stem: string, title: string, issuesHeading: string, pullsHeading: string,
                   fetched: Result<UpdateBundle>): (r: Result<Artifact>)
    ensures r.Ok? <==>
      fetched.Ok? && RenderReport(title, issuesHeading, pullsHeading, fetched.value.issues, fetched.value.pullRequests).Ok?
    ensures r.Ok? ==> r.value.path == ProgressPath(repo, stem)
    ensures r.Ok? ==>
      r.value.content == RenderReport(title, issuesHeading, pullsHeading, fetched.value.issues, fetched.value.pullRequests).value
  {
    match fetched
    case Err(e) => Err(e)
    case Ok(b) =>
      match RenderReport(title, issuesHeading, pullsHeading, b.issues, b.pullRequests)
      case Err(e) => Err(e)
      case Ok(content) => Ok(Artifact(ProgressPath(repo, stem), content))
  }

  /** `export_daily_progress(repo)` on the UTC date `today`: everything since
      today's midnight, labelled by the date. */
  function ExportDaily(repo: string, today: Date, oracle: Request -> Response): (r: Result<Artifact>)
    requires ValidDate(today)
    ensures FetchUpdates(repo, Some(FormatDate(today)), None, oracle).Err? ==>
      r == Err(FetchUpdates(repo, Some(FormatDate(today)), None, oracle).error)
    ensures r.Ok? && |repo| > 0 ==>
      r.value.path == "daily_progress/" + RepoDir(repo) + "/" + FormatDate(today) + ".md"
  {
    var day := FormatDate(today);
    ProgressPathShape(repo, day);
    Publish(repo, day, DailyTitle(repo, today), "## Issues Closed Today", "## Pull Requests Merged Today",
            FetchUpdates(repo, Some(day), None, oracle))
  }

  function DailyTitle(repo: string, today: Date): string
    requires ValidDate(today)
  {
    "# Daily Progress for " + repo + " (" + FormatDate(today) + ")"
  }

  /** `export_progress_by_date_range(repo, days)` on the UTC date `today`: the
      window from `days` days before today up to today, both as dates. A start
      outside years 1..9999 fails before anything is fetched. */
  function ExportRange(repo: string, days: int, today: Date, oracle: Request -> Response): (r: Result<Artifact>)
    requires ValidDate(today)
    ensures !(1 <= ToOrdinal(today) - days <= MaxOrdinal) ==> r == Err(DateOutOfRange)
    ensures r.Ok? ==> SubtractDays(today, days).Ok?
    ensures r.Ok? && |repo| > 0 ==>
      var start := SubtractDays(today, days).value;
      && ToOrdinal(start) + days == ToOrdinal(today)
      && r.value.path == "daily_progress/" + RepoDir(repo) + "/" + FormatDate(start) + "_to_" + FormatDate(today) + ".md"
  {
    match SubtractDays(today, days)
    case Err(e) => Err(e)
    case Ok(start) =>
      var since := FormatDate(start);
      var until := FormatDate(today);
      WindowPathShape(repo, since, until);
      Publish(repo, since + "_to_" + until, RangeTitle(repo, since, until),
              RangeIssuesHeading(days), RangePullsHeading(days),
              FetchUpdates(repo, Some(since), Some(until), oracle))
  }

  function RangeTitle(repo: string, since: string, until: string): string {
    "# Progress for " + repo + " (" + since + " to " + until + ")"
  }

  function RangeIssuesHeading(days: int): string {
    "## Issues Closed in the Last " + Text.IntToDecimal(days) + " Days"
  }

  function RangePullsHeading(days: int): string {
    "## Pull Requests Merged in the Last " + Text.IntToDecimal(days) + " Days"
  }

  /** `export_progress_by_since_until(repo, since, until)`: both strings must
      parse before anything is fetched; the window is their wall clocks taken
      as UTC, and the stem is the two strings exactly as given. */
  function ExportSinceUntil(repo: string, since: string, until: string, oracle: Request -> Response)
    : (r: Result<Artifact>)
    ensures ParseDateTime(since).None? ==> r == Err(MalformedDate(since))
    ensures ParseDateTime(since).Some? && ParseDateTime(until).None? ==> r == Err(MalformedDate(until))
    ensures r.Ok? && |repo| > 0 ==>
      r.value.path == "daily_progress/" + RepoDir(repo) + "/" + since + "_to_" + until + ".md"
  {
    match ParseDateTime(since)
    case None => Err(MalformedDate(since))
    case Some(s) =>
      match ParseDateTime(until)
      case None => Err(MalformedDate(until))
      case Some(u) =>
        SinceLabelIsRelative(since);
        WindowPathShape(repo, since, until);
        Publish(repo, since + "_to_" + until, RangeTitle(repo, since, until),
                "## Issues Closed in the Specified Time Range",
                "## Pull Requests Merged in the Specified Time Range",
                FetchUpdates(repo, Some(FormatDateTime(ReplaceWithUtc(s))), Some(FormatDateTime(ReplaceWithUtc(u))), oracle))
  }

  /** A string that parses as a date-time starts with a digit, so a stem built
      from it is never an absolute path. */
  lemma SinceLabelIsRelative(since: string)
    requires ParseDateTime(since).Some?
    ensures |since| > 0 && since[0] != '/'
  {
    assert since[..10][..4] == since[..4];
    assert Text.IsDigit(since[..4][0]);
  }

  /* ---------------------------------------------------------------- properties of the exports */

  /** A date-range report exists only when the fetch between the start date
      and today succeeded. */
  lemma RangeFetched(repo: string, days: int, today: Date, oracle: Request -> Response, start: Date)
    requires ValidDate(today) && SubtractDays(today, days) == Ok(start)
    requires ExportRange(repo, days, today, oracle).Ok?
    ensures ValidDate(start)
    ensures FetchUpdates(repo, Some(FormatDate(start)), Some(FormatDate(today)), oracle).Ok?
  {
    var since := FormatDate(start);
    var until := FormatDate(today);
    assert ExportRange(repo, days, today, oracle)
      == Publish(repo, since + "_to_" + until, RangeTitle(repo, since, until),
                 RangeIssuesHeading(days), RangePullsHeading(days),
                 FetchUpdates(repo, Some(since), Some(until), oracle));
  }

  /** Both ends of the date-range window are midnights: a listed issue or pull
      request was closed no earlier than the start date began and no later
      than today began, so nothing closed later today is ever listed. */
  lemma RangeReportWindow(repo: string, start: Date, today: Date, oracle: Request -> Response,
                          b: UpdateBundle, e: Endpoint)
    requires ValidDate(start) && ValidDate(today)
    requires FetchUpdates(repo, Some(FormatDate(start)), Some(FormatDate(today)), oracle) == Ok(b)
    requires e != Commits
    ensures forall x :: x in Pick(b, e) ==>
      && ItemDate(x, "closed_at").Ok? && ItemDate(x, "closed_at").value.Some?
      && DayStart(start) <= Instant(ItemDate(x, "closed_at").value.value) <= DayStart(today)
  {
    DateBound(start);
    DateBound(today);
    ListedWithin(repo, Some(FormatDate(start)), Some(FormatDate(today)), oracle,
                 b, Some(DayStart(start)), Some(DayStart(today)), e);
  }

  /** A since/until report exists only when the fetch with the bounds' own
      `isoformat()`, after the zone is replaced by UTC, succeeded. */
  lemma SinceUntilFetched(repo: string, since: string, until: string, oracle: Request -> Response,
                          s: DateTime, u: DateTime)
    requires ParseDateTime(since) == Some(s) && ParseDateTime(until) == Some(u)
    requires ExportSinceUntil(repo, since, until, oracle).Ok?
    ensures ValidDateTime(s) && ValidDateTime(u)
    ensures FetchUpdates(repo, Some(FormatDateTime(ReplaceWithUtc(s))), Some(FormatDateTime(ReplaceWithUtc(u))), oracle).Ok?
  {
    var fetched := FetchUpdates(repo, Some(FormatDateTime(ReplaceWithUtc(s))), Some(FormatDateTime(ReplaceWithUtc(u))), oracle);
    assert ExportSinceUntil(repo, since, until, oracle)
      == Publish(repo, since + "_to_" + until, RangeTitle(repo, since, until),
                 "## Issues Closed in the Specified Time Range",
                 "## Pull Requests Merged in the Specified Time Range", fetched);
  }

  /** Such a fetch lists only issues and pull requests closed within the two
      wall clocks read as UTC instants, whatever zones the caller wrote. */
  lemma SinceUntilWindow(repo: string, s: DateTime, u: DateTime, oracle: Request -> Response,
                         b: UpdateBundle, e: Endpoint)
    requires ValidDateTime(s) && ValidDateTime(u)
    requires FetchUpdates(repo, Some(FormatDateTime(ReplaceWithUtc(s))), Some(FormatDateTime(ReplaceWithUtc(u))), oracle)
      == Ok(b)
    requires e != Commits
    ensures forall x :: x in Pick(b, e) ==>
      && ItemDate(x, "closed_at").Ok? && ItemDate(x, "closed_at").value.Some?
      && WallSeconds(s) <= Instant(ItemDate(x, "closed_at").value.value) <= WallSeconds(u)
  {
    assert DatePath(e) == "closed_at";
    UtcBound(s);
    UtcBound(u);
    ListedWithin(repo, Some(FormatDateTime(ReplaceWithUtc(s))), Some(FormatDateTime(ReplaceWithUtc(u))), oracle,
                 b, Some(WallSeconds(s)), Some(WallSeconds(u)), e);
  }

  /** A caller's bound, handed on as `isoformat()` after its zone is replaced
      by UTC, filters at the caller's wall clock. */
  lemma UtcBound(t: DateTime)
    requires ValidDateTime(t)
    ensures ParseBound(Some(FormatDateTime(ReplaceWithUtc(t)))) == Ok(Some(WallSeconds(t)))
  {
    var u := ReplaceWithUtc(t);
    ReplaceIgnoresOffset(t);
    BoundDiscardsOffset(u);
  }

  /** The daily report's lines: the title naming the repository and the date,
      then one line per closed issue and per closed pull request fetched with
      only `since` set to today. */
  lemma DailyReportLines(repo: string, today: Date, oracle: Request -> Response, b: UpdateBundle)
    requires ValidDate(today)
    requires FetchUpdates(repo, Some(FormatDate(today)), None, oracle) == Ok(b)
    requires ExportDaily(repo, today, oracle).Ok?
    requires NewLine !in repo
    requires NoNewLine(ItemLines(b.issues).value) && NoNewLine(ItemLines(b.pullRequests).value)
    ensures Text.Split(ExportDaily(repo, today, oracle).value.content, NewLine)
      == [DailyTitle(repo, today), "", "", "## Issues Closed Today"] + ItemLines(b.issues).value
         + ["", "## Pull Requests Merged Today"] + ItemLines(b.pullRequests).value + [""]
  {
    var title := DailyTitle(repo, today);
    assert ExportDaily(repo, today, oracle)
      == Publish(repo, FormatDate(today), title, "## Issues Closed Today", "## Pull Requests Merged Today", Ok(b));
    DailyHeadings(repo, today);
    ReportLines(title, "## Issues Closed Today", "## Pull Requests Merged Today", b.issues, b.pullRequests);
  }

  lemma DailyHeadings(repo: string, today: Date)
    requires ValidDate(today) && NewLine !in repo
    ensures NoNewLine([DailyTitle(repo, today), "## Issues Closed Today", "## Pull Requests Merged Today"])
  {
    DailyTitleOneLine(repo, today);
    assert NewLine !in "## Issues Closed Today" && NewLine !in "## Pull Requests Merged Today";
    ThreeLines(DailyTitle(repo, today), "## Issues Closed Today", "## Pull Requests Merged Today");
  }

  lemma DailyTitleOneLine(repo: string, today: Date)
    requires ValidDate(today) && NewLine !in repo
    ensures NewLine !in DailyTitle(repo, today)
  {
    FormatDateHasNo(today, NewLine);
    DailyTitleText(repo, FormatDate(today));
  }

  lemma DailyTitleText(repo: string, day: string)
    requires NewLine !in repo && NewLine !in day
    ensures NewLine !in "# Daily Progress for " + repo + " (" + day + ")"
  {
    assert NewLine !in "# Daily Progress for " && NewLine !in " (" && NewLine !in ")";
    JoinedOneLine("# Daily Progress for ", repo);
    JoinedOneLine("# Daily Progress for " + repo, " (");
    JoinedOneLine("# Daily Progress for " + repo + " (", day);
    JoinedOneLine("# Daily Progress for " + repo + " (" + day, ")");
  }

  /** The date-range report's lines: the title naming the repository and both
      dates, the two headings counting the days, and one line per closed issue
      and per closed pull request fetched between the two dates. */
  lemma RangeReportLines(repo: string, days: int, today: Date, oracle: Request -> Response,
                         start: Date, b: UpdateBundle)
    requires ValidDate(today) && SubtractDays(today, days) == Ok(start)
    requires FetchUpdates(repo, Some(FormatDate(start)), Some(FormatDate(today)), oracle) == Ok(b)
    requires ExportRange(repo, days, today, oracle).Ok?
    requires NewLine !in repo
    requires NoNewLine(ItemLines(b.issues).value) && NoNewLine(ItemLines(b.pullRequests).value)
    ensures Text.Split(ExportRange(repo, days, today, oracle).value.content, NewLine)
      == [RangeTitle(repo, FormatDate(start), FormatDate(today)), "", "", RangeIssuesHeading(days)]
         + ItemLines(b.issues).value
         + ["", RangePullsHeading(days)] + ItemLines(b.pullRequests).value + [""]
  {
    var since := FormatDate(start);
    var until := FormatDate(today);
    var title := RangeTitle(repo, since, until);
    assert ExportRange(repo, days, today, oracle)
      == Publish(repo, since + "_to_" + until, title, RangeIssuesHeading(days), RangePullsHeading(days), Ok(b));
    FormatDateHasNo(start, NewLine);
    FormatDateHasNo(today, NewLine);
    RangeTitleOneLine(repo, since, until);
    RangeHeadingsOneLine(days);
    ThreeLines(title, RangeIssuesHeading(days), RangePullsHeading(days));
    ReportLines(title, RangeIssuesHeading(days), RangePullsHeading(days), b.issues, b.pullRequests);
  }

  /** The since/until report's lines: the title naming the repository and the
      two strings as given, the fixed headings, and one line per closed issue
      and per closed pull request fetched within the two wall clocks. */
  lemma SinceUntilReportLines(repo: string, since: string, until: string, oracle: Request -> Response,
                              s: DateTime, u: DateTime, b: UpdateBundle)
    requires ParseDateTime(since) == Some(s) && ParseDateTime(until) == Some(u)
    requires FetchUpdates(repo, Some(FormatDateTime(ReplaceWithUtc(s))), Some(FormatDateTime(ReplaceWithUtc(u))), oracle)
      == Ok(b)
    requires ExportSinceUntil(repo, since, until, oracle).Ok?
    requires NewLine !in repo
    requires NoNewLine(ItemLines(b.issues).value) && NoNewLine(ItemLines(b.pullRequests).value)
    ensures Text.Split(ExportSinceUntil(repo, since, until, oracle).value.content, NewLine)
      == [RangeTitle(repo, since, until), "", "", "## Issues Closed in the Specified Time Range"]
         + ItemLines(b.issues).value
         + ["", "## Pull Requests Merged in the Specified Time Range"] + ItemLines(b.pullRequests).value + [""]
  {
    SinceUntilPublishes(repo, since, until, oracle, s, u, b);
    SinceUntilHeadings(repo, since, until);
    PublishedLines(repo, since + "_to_" + until, RangeTitle(repo, since, until),
                   "## Issues Closed in the Specified Time Range",
                   "## Pull Requests Merged in the Specified Time Range", b,
                   ExportSinceUntil(repo, since, until, oracle));
  }

  lemma SinceUntilHeadings(repo: string, since: string, until: string)
    requires ParseDateTime(since).Some? && ParseDateTime(until).Some? && NewLine !in repo
    ensures NoNewLine([RangeTitle(repo, since, until), "## Issues Closed in the Specified Time Range",
                       "## Pull Requests Merged in the Specified Time Range"])
  {
    ParsedHasNo(since, NewLine);
    ParsedHasNo(until, NewLine);
    RangeTitleOneLine(repo, since, until);
    SpanHeadingsOneLine();
    ThreeLines(RangeTitle(repo, since, until), "## Issues Closed in the Specified Time Range",
               "## Pull Requests Merged in the Specified Time Range");
  }

  /** A published report splits into the lines `ReportLines` describes. */
  lemma PublishedLines(repo: string, stem: string, title: string, issuesHeading: string, pullsHeading: string,
                       b: UpdateBundle, r: Result<Artifact>)
    requires r == Publish(repo, stem, title, issuesHeading, pullsHeading, Ok(b)) && r.Ok?
    requires NoNewLine([title, issuesHeading, pullsHeading])
    requires NoNewLine(ItemLines(b.issues).value) && NoNewLine(ItemLines(b.pullRequests).value)
    ensures Text.Split(r.value.content, NewLine)
      == [title, "", "", issuesHeading] + ItemLines(b.issues).value
         + ["", pullsHeading] + ItemLines(b.pullRequests).value + [""]
  {
    ReportLines(title, issuesHeading, pullsHeading, b.issues, b.pullRequests);
  }

  lemma SinceUntilPublishes(repo: string, since: string, until: string, oracle: Request -> Response,
                            s: DateTime, u: DateTime, b: UpdateBundle)
    requires ParseDateTime(since) == Some(s) && ParseDateTime(until) == Some(u)
    requires FetchUpdates(repo, Some(FormatDateTime(ReplaceWithUtc(s))), Some(FormatDateTime(ReplaceWithUtc(u))), oracle)
      == Ok(b)
    ensures ExportSinceUntil(repo, since, until, oracle)
      == Publish(repo, since + "_to_" + until, RangeTitle(repo, since, until),
                 "## Issues Closed in the Specified Time Range",
                 "## Pull Requests Merged in the Specified Time Range", Ok(b))
  {
  }

  lemma SpanHeadingsOneLine()
    ensures NewLine !in "## Issues Closed in the Specified Time Range"
    ensures NewLine !in "## Pull Requests Merged in the Specified Time Range"
  {
    assert NewLine !in "## Pull Requests Merged" && NewLine !in " in the Specified Time Range";
    JoinedOneLine("## Pull Requests Merged", " in the Specified Time Range");
  }

  lemma RangeTitleOneLine(repo: string, since: string, until: string)
    requires NewLine !in repo && NewLine !in since && NewLine !in until
    ensures NewLine !in RangeTitle(repo, since, until)
  {
    assert NewLine !in "# Progress for " && NewLine !in " (" && NewLine !in " to " && NewLine !in ")";
    JoinedOneLine("# Progress for ", repo);
    JoinedOneLine("# Progress for " + repo, " (");
    JoinedOneLine("# Progress for " + repo + " (", since);
    JoinedOneLine("# Progress for " + repo + " (" + since, " to ");
    JoinedOneLine("# Progress for " + repo + " (" + since + " to ", until);
    JoinedOneLine("# Progress for " + repo + " (" + since + " to " + until, ")");
  }

  lemma RangeHeadingsOneLine(days: int)
    ensures NewLine !in RangeIssuesHeading(days) && NewLine !in RangePullsHeading(days)
  {
    var n := Text.IntToDecimal(days);
    Text.IntToDecimalHasNo(days, NewLine);
    assert NewLine !in "## Issues Closed in the Last " && NewLine !in " Days";
    assert NewLine !in "## Pull Requests Merged in the Last ";
    JoinedOneLine("## Issues Closed in the Last ", n);
    JoinedOneLine("## Issues Closed in the Last " + n, " Days");
    JoinedOneLine("## Pull Requests Merged in the Last ", n);
    JoinedOneLine("## Pull Requests Merged in the Last " + n, " Days");
  }

  lemma JoinedOneLine(a: string, b: string)
    requires NewLine !in a && NewLine !in b
    ensures NewLine !in a + b
  {
  }

  lemma ThreeLines(a: string, b: string, c: string)
    requires NewLine !in a && NewLine !in b && NewLine !in c
    ensures NoNewLine([a, b, c])
  {
  }

  /** Every issue and pull request in the daily report was closed at or after
      today's midnight UTC, and came from its own response. */
  lemma DailyReportWindow(repo: string, today: Date, oracle: Request -> Response, b: UpdateBundle, e: Endpoint)
    requires ValidDate(today)
    requires FetchUpdates(repo, Some(FormatDate(today)), None, oracle) == Ok(b)
    requires e != Commits
    ensures forall x :: x in Pick(b, e) ==>
      && x in oracle(RequestFor(repo, e, Some(FormatDate(today)), None)).body
      && ItemDate(x, "closed_at").Ok? && ItemDate(x, "closed_at").value.Some?
      && DayStart(today) <= Instant(ItemDate(x, "closed_at").value.value)
  {
    var day := Some(FormatDate(today));
    BundleFromOwnResponses(repo, day, None, oracle, e);
    DateBound(today);
  }

  /** The commit response can only make the daily export fail; it never
      changes what is written. */
  lemma DailyIgnoresCommits(repo: string, today: Date, o1: Request -> Response, o2: Request -> Response)
    requires ValidDate(today)
    requires forall e :: e != Commits ==>
      o1(RequestFor(repo, e, Some(FormatDate(today)), None)) == o2(RequestFor(repo, e, Some(FormatDate(today)), None))
    requires ExportDaily(repo, today, o1).Ok? && ExportDaily(repo, today, o2).Ok?
    ensures ExportDaily(repo, today, o1) == ExportDaily(repo, today, o2)
  {
    var day := Some(FormatDate(today));
    assert FetchFrom(repo, Issues, day, None, o1) == FetchFrom(repo, Issues, day, None, o2);
    assert FetchFrom(repo, PullRequests, day, None, o1) == FetchFrom(repo, PullRequests, day, None, o2);
  }
}
