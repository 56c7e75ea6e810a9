/** `DogeNewsClient` of src/dogecoin_news_client.py: `parse_news`,
    `fetch_top_news` and `export_top_news`.

    The browser and the HTML parser are outside the model: a page arrives as
    the sequence of its news rows, each holding the title anchor `find`
    returned (or nothing), with the anchor's stripped text and its `href`
    attribute when it has one. A page that could not be loaded is `None`. */
module NewsExport {
  import opened Outcomes
  import Text
  import opened Calendar

  /** The site that relative news links are completed against. */
  const NewsSite: string := "https://cryptopanic.com"

  const NewsRoot: string := "dogecoin_top_news"

  const NewLine: char := '\n'

  /** The `a.news-cell.nc-title` anchor of one row. */
  datatype TitleTag = TitleTag(text: string, href: Option<string>)

  /** One `{'title': ..., 'link': ...}` record of the news list. */
  datatype NewsItem = NewsItem(title: string, link: string)

  /* ---------------------------------------------------------------- parsing */

  /** The anchors of the rows that have one, in page order. */
  function Anchors(rows: seq<Option<TitleTag>>): (tags: seq<TitleTag>)
    ensures |tags| <= |rows|
    ensures forall t :: t in tags <==> Some(t) in rows
    decreases |rows|
  {
    if |rows| == 0 then []
    else
      var rest := Anchors(rows[1..]);
      assert forall t :: Some(t) in rows <==> Some(t) == rows[0] || Some(t) in rows[1..];
      match rows[0]
      case None => rest
      case Some(tag) => [tag] + rest
  }

  /** The anchors of one row: its title anchor, or none. */
  lemma AnchorsOfRow(row: Option<TitleTag>)
    ensures Anchors([row]) == (if row.Some? then [row.value] else [])
  {
    assert [row][1..] == [];
  }

  /** Anchors keep page order: those of a page are those of its first part
      followed by those of the rest. */
  lemma {:induction false} AnchorsAppend(a: seq<Option<TitleTag>>, b: seq<Option<TitleTag>>)
    ensures Anchors(a + b) == Anchors(a) + Anchors(b)
    decreases |a|
  {
    if |a| == 0 {
      assert a + b == b;
    } else {
      assert (a + b)[0] == a[0];
      assert (a + b)[1..] == a[1..] + b;
      AnchorsAppend(a[1..], b);
      if a[0].Some? {
        assert [a[0].value] + (Anchors(a[1..]) + Anchors(b)) == [a[0].value] + Anchors(a[1..]) + Anchors(b);
      }
    }
  }

  /** Every title anchor on the page carries an `href`. */
  predicate AllLinked(rows: seq<Option<TitleTag>>) {
    forall i :: 0 <= i < |rows| && rows[i].Some? ==> rows[i].value.href.Some?
  }

  /** `parse_news`: one record per row with a title anchor, its link completed
      against the site; an anchor without `href` raises `KeyError`. */
  function ParseNews(rows: seq<Option<TitleTag>>): (r: Result<seq<NewsItem>>)
    ensures r.Ok? <==> AllLinked(rows)
    ensures r.Err? ==> r.error == MissingKey("href")
    ensures r.Ok? ==> |r.value| == |Anchors(rows)|
    decreases |rows|
  {
    if |rows| == 0 then Ok([])
    else
      LinkedSplit(rows);
      match ParseNews(rows[1..])
      case Err(e) =>
        if rows[0].Some? && rows[0].value.href.None? then Err(MissingKey("href")) else Err(e)
      case Ok(rest) =>
        match rows[0]
        case None => Ok(rest)
        case Some(tag) =>
          match tag.href
          case None => Err(MissingKey("href"))
          case Some(link) => Ok([NewsItem(tag.text, NewsSite + link)] + rest)
  }

  /** A page is linked when its first row is and the rest of it is. */
  lemma LinkedSplit(rows: seq<Option<TitleTag>>)
    requires |rows| > 0
    ensures AllLinked(rows) <==> (rows[0].Some? ==> rows[0].value.href.Some?) && AllLinked(rows[1..])
  {
    assert forall i :: 1 <= i < |rows| ==> rows[1..][i - 1] == rows[i];
  }

  /** Item `i` of a parsed page is the `i`-th anchor's text, with the site put
      in front of that anchor's `href`. */
  lemma {:induction false} ParsedItems(rows: seq<Option<TitleTag>>)
    requires ParseNews(rows).Ok?
    ensures var items := ParseNews(rows).value;
      forall i :: 0 <= i < |items| ==>
        && Anchors(rows)[i].href.Some?
        && items[i] == NewsItem(Anchors(rows)[i].text, NewsSite + Anchors(rows)[i].href.value)
    decreases |rows|
  {
    if |rows| > 0 {
      LinkedSplit(rows);
      ParsedItems(rows[1..]);
    }
  }

  /** `fetch_top_news`: every failure, from the browser or from parsing, is
      logged and turns into an empty list. */
  function FetchTopNews(page: Option<seq<Option<TitleTag>>>): (news: seq<NewsItem>)
    ensures page.None? ==> news == []
    ensures page.Some? && ParseNews(page.value).Err? ==> news == []
    ensures page.Some? && ParseNews(page.value).Ok? ==> news == ParseNews(page.value).value
  {
    match page
    case None => []
    case Some(rows) =>
      match ParseNews(rows)
      case Err(_) => []
      case Ok(items) => items
  }

  /** No news is found exactly when the page did not load, an anchor lacks
      its `href`, or the page has no title anchor at all. */
  lemma NoNewsIff(page: Option<seq<Option<TitleTag>>>)
    ensures FetchTopNews(page) == [] <==>
      page.None? || !AllLinked(page.value) || |Anchors(page.value)| == 0
  {
  }

  /** Every link in the list points into the news site: the anchor's `href`
      with the site in front. */
  lemma LinksCompleted(page: Option<seq<Option<TitleTag>>>)
    ensures forall n :: n in FetchTopNews(page) ==>
      |n.link| >= |NewsSite| && n.link[..|NewsSite|] == NewsSite
      && exists t :: t in Anchors(page.value) && t.href == Some(n.link[|NewsSite|..]) && t.text == n.title
  {
    if page.Some? && ParseNews(page.value).Ok? {
      var rows := page.value;
      var items := ParseNews(rows).value;
      ParsedItems(rows);
      forall n | n in items
        ensures |n.link| >= |NewsSite| && n.link[..|NewsSite|] == NewsSite
        ensures exists t :: t in Anchors(rows) && t.href == Some(n.link[|NewsSite|..]) && t.text == n.title
      {
        var i :| 0 <= i < |items| && items[i] == n;
        var t := Anchors(rows)[i];
        assert n.link == NewsSite + t.href.value;
        assert n.link[|NewsSite|..] == t.href.value;
        assert t in Anchors(rows);
      }
    }
  }

  /** Rows without a title anchor are skipped, so the list is as long as the
      page has anchors, and an anchor missing its `href` empties the list. */
  lemma OneItemPerAnchor(rows: seq<Option<TitleTag>>)
    ensures (forall i :: 0 <= i < |rows| && rows[i].Some? ==> rows[i].value.href.Some?) ==>
      |FetchTopNews(Some(rows))| == |Anchors(rows)|
    ensures (exists i :: 0 <= i < |rows| && rows[i].Some? && rows[i].value.href.None?) ==>
      FetchTopNews(Some(rows)) == []
  {
  }

  /* ---------------------------------------------------------------- export */

  /** `f"{idx}. [{title}]({link})"`. */
  function NumberedLine(idx: nat, n: NewsItem): string {
    Text.NatToDecimal(idx) + ". [" + n.title + "](" + n.link + ")"
  }

  /** The list lines, numbered from `start`. */
  function Numbered(news: seq<NewsItem>, start: nat): (lines: seq<string>)
    ensures |lines| == |news|
    decreases |news|
  {
    if |news| == 0 then [] else [NumberedLine(start, news[0])] + Numbered(news[1..], start + 1)
  }

  /** The line of the `i`-th item carries the number `start + i`. */
  lemma {:induction false} NumberedAt(news: seq<NewsItem>, start: nat, i: nat)
    requires i < |news|
    ensures Numbered(news, start)[i] == NumberedLine(start + i, news[i])
    decreases i
  {
    if i > 0 {
      NumberedAt(news[1..], start + 1, i - 1);
      NumberedRest(news, start);
      assert news[1..][i - 1] == news[i];
      LaterLine(Numbered(news, start), Numbered(news[1..], start + 1), i,
                NumberedLine(start + i, news[i]));
    }
  }

  /** After the first line come the lines of the remaining items, numbered one higher. */
  lemma NumberedRest(news: seq<NewsItem>, start: nat)
    requires |news| > 0
    ensures Numbered(news, start)[1..] == Numbered(news[1..], start + 1)
  {
  }

  lemma LaterLine(lines: seq<string>, rest: seq<string>, i: nat, line: string)
    requires 0 < i < |lines| && lines[1..] == rest && rest[i - 1] == line
    ensures lines[i] == line
  {
  }

  /** Numbering one more item appends one line, numbered after the others. */
  lemma {:induction false} NumberedSnoc(news: seq<NewsItem>, start: nat, n: NewsItem)
    ensures Numbered(news + [n], start) == Numbered(news, start) + [NumberedLine(start + |news|, n)]
    decreases |news|
  {
    if |news| > 0 {
      assert (news + [n])[1..] == news[1..] + [n];
      NumberedSnoc(news[1..], start + 1, n);
    } else {
      assert news + [n] == [n];
    }
  }

  function NewsTitle(date: string, hour: string): string {
    "# Dogecoin Top News (" + date + " " + hour + ":00)"
  }

  /** The writes of `export_top_news`: the title line and a blank line, then
      one numbered line per item, counting from 1. */
  method RenderNews(date: string, hour: string, news: seq<NewsItem>) returns (content: string)
    ensures content == NewsTitle(date, hour) + "\n\n" + Text.Unlines(Numbered(news, 1), NewLine)
  {
    content := NewsTitle(date, hour) + "\n\n";
    var idx := 0;
    while idx < |news|
      invariant 0 <= idx <= |news|
      invariant content == NewsTitle(date, hour) + "\n\n" + Text.Unlines(Numbered(news[..idx], 1), NewLine)
    {
      NumberedExtend(news, idx);
      content := content + NumberedLine(idx + 1, news[idx]) + "\n";
      idx := idx + 1;
    }
    assert news[..idx] == news;
  }

  lemma NumberedExtend(news: seq<NewsItem>, idx: nat)
    requires idx < |news|
    ensures Text.Unlines(Numbered(news[..idx + 1], 1), NewLine)
      == Text.Unlines(Numbered(news[..idx], 1), NewLine) + NumberedLine(idx + 1, news[idx]) + "\n"
  {
    var last := [NumberedLine(idx + 1, news[idx])];
    assert news[..idx + 1] == news[..idx] + [news[idx]];
    NumberedSnoc(news[..idx], 1, news[idx]);
    Text.UnlinesAppend(Numbered(news[..idx], 1), last, NewLine);
    Text.UnlinesCons(last[0], [], NewLine);
    assert [last[0]] + [] == last;
  }

  /** `export_top_news(date, hour)`: nothing is written when no news was
      found; otherwise `dogecoin_top_news/<date>/<hour>.md`, where a missing
      date and a missing hour are read from the local clock. The clock is
      read twice, once for each, so the two readings are separate inputs. */
  method ExportTopNews(page: Option<seq<Option<TitleTag>>>, date: Option<string>, hour: Option<string>,
                       clockDate: Date, clockHour: int) returns (r: Option<Artifact>)
    requires ValidDate(clockDate) && 0 <= clockHour < 24
    ensures r.None? <==> FetchTopNews(page) == []
    ensures r.Some? ==>
      var d := if date.Some? then date.value else FormatDate(clockDate);
      var h := if hour.Some? then hour.value else Text.FixedDigits(clockHour, 2);
      && r.value.path == Text.PathJoin(Text.PathJoin(NewsRoot, d), h + ".md")
      && r.value.content == NewsTitle(d, h) + "\n\n" + Text.Unlines(Numbered(FetchTopNews(page), 1), NewLine)
  {
    var news := FetchTopNews(page);
    if |news| == 0 {
      return None;
    }
    var d := if date.Some? then date.value else FormatDate(clockDate);
    var h := if hour.Some? then hour.value else Text.FixedDigits(clockHour, 2);
    var content := RenderNews(d, h, news);
    r := Some(Artifact(Text.PathJoin(Text.PathJoin(NewsRoot, d), h + ".md"), content));
  }

  /** With the defaults, the file is `dogecoin_top_news/YYYY-MM-DD/HH.md`. */
  lemma DefaultNewsPath(clockDate: Date, clockHour: int)
    requires ValidDate(clockDate) && 0 <= clockHour < 24
    ensures Text.PathJoin(Text.PathJoin(NewsRoot, FormatDate(clockDate)), Text.FixedDigits(clockHour, 2) + ".md")
      == NewsRoot + "/" + FormatDate(clockDate) + "/" + Text.FixedDigits(clockHour, 2) + ".md"
  {
    var dir := NewsRoot + "/" + FormatDate(clockDate);
    DateDirectory(clockDate);
    HourFileRelative(clockHour);
    assert dir + "/" + (Text.FixedDigits(clockHour, 2) + ".md")
      == NewsRoot + "/" + FormatDate(clockDate) + "/" + Text.FixedDigits(clockHour, 2) + ".md";
  }

  /** The directory of a date is one level below the news root and does not end in `/`. */
  lemma DateDirectory(d: Date)
    requires ValidDate(d)
    ensures Text.PathJoin(NewsRoot, FormatDate(d)) == NewsRoot + "/" + FormatDate(d)
    ensures var dir := NewsRoot + "/" + FormatDate(d); dir[|dir| - 1] != '/'
  {
    var s := FormatDate(d);
    FormatDateHasNo(d, '/');
    assert s[0] in s && s[9] in s;
    var dir := NewsRoot + "/" + s;
    assert dir[|dir| - 1] == s[9];
  }

  /** An hour's file name does not start with `/`. */
  lemma HourFileRelative(hour: int)
    requires 0 <= hour < 24
    ensures (Text.FixedDigits(hour, 2) + ".md")[0] != '/'
  {
    var h := Text.FixedDigits(hour, 2);
    Text.DigitsHaveNo(h, '/');
    assert h[0] in h;
  }

  /** Read back line by line, the news file is its title, a blank line, the
      numbered items in list order, and the empty remainder after the last
      newline. */
  lemma NewsLines(date: string, hour: string, news: seq<NewsItem>)
    requires NewLine !in date && NewLine !in hour
    requires forall n :: n in news ==> NewLine !in n.title && NewLine !in n.link
    ensures Text.Split(NewsTitle(date, hour) + "\n\n" + Text.Unlines(Numbered(news, 1), NewLine), NewLine)
      == [NewsTitle(date, hour), ""] + Numbered(news, 1) + [""]
  {
    var title := NewsTitle(date, hour);
    var lines := [title, ""] + Numbered(news, 1);
    assert NewLine !in title by {
      assert NewLine !in "# Dogecoin Top News (" && NewLine !in " " && NewLine !in ":00)";
    }
    forall i | 0 <= i < |news| ensures NewLine !in Numbered(news, 1)[i] {
      assert news[i] in news;
      NumberedAt(news, 1, i);
      Text.DigitsHaveNo(Text.NatToDecimal(1 + i), NewLine);
      assert NewLine !in ". [" && NewLine !in "](" && NewLine !in ")";
    }
    assert forall i :: 0 <= i < |lines| ==> NewLine !in lines[i] by {
      forall i | 0 <= i < |lines| ensures NewLine !in lines[i] {
        if i >= 2 {
          assert lines[i] == Numbered(news, 1)[i - 2];
        }
      }
    }
    assert Text.Unlines([title, ""], NewLine) == title + "\n\n" by {
      assert [NewLine] == "\n";
      Text.UnlinesCons("", [], NewLine);
      Text.UnlinesCons(title, [""], NewLine);
      assert [""] + [] == [""];
      assert [title] + [""] == [title, ""];
    }
    Text.UnlinesAppend([title, ""], Numbered(news, 1), NewLine);
    Text.SplitUnlines(lines, "", NewLine);
    assert Text.Split("", NewLine) == [""];
    assert Text.Unlines(lines, NewLine) + "" == Text.Unlines(lines, NewLine);
  }
}
