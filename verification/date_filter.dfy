/** `filter_by_date` of src/github_client.py: keep the records whose date at
    a dotted path lies inside an inclusive, optionally open, window. */
module DateFilter {
  import opened Outcomes
  import Text
  import opened JsonValues
  import opened Calendar
  import opened IsoTime

  /** `if since:` on a bound argument: `None` and `""` mean no bound. */
  predicate Given(s: Option<string>) {
    s.Some? && s.value != ""
  }

  /** The inclusive window: not before `since` and not after `until`; a missing
      end never excludes anything. */
  predicate InWindow(t: int, since: Option<int>, until: Option<int>) {
    (since.None? || since.value <= t) && (until.None? || t <= until.value)
  }

  /** `b` is `a` with some elements left out, the rest in their original order. */
  predicate IsSubsequence<T(==)>(a: seq<T>, b: seq<T>)
    decreases |b|
  {
    |a| == 0
    || (|b| > 0 && ((a[0] == b[0] && IsSubsequence(a[1..], b[1..])) || IsSubsequence(a, b[1..])))
  }

  lemma {:induction false} SubsequenceMembers<T>(a: seq<T>, b: seq<T>)
    requires IsSubsequence(a, b)
    ensures forall x :: x in a ==> x in b
    decreases |b|
  {
    if |a| > 0 {
      if a[0] == b[0] && IsSubsequence(a[1..], b[1..]) {
        SubsequenceMembers(a[1..], b[1..]);
        assert a == [a[0]] + a[1..];
      } else {
        SubsequenceMembers(a, b[1..]);
      }
      assert b == [b[0]] + b[1..];
    }
  }

  /* ---------------------------------------------------------------- bounds and item dates */

  /** A bound string, parsed and given UTC by replacement: whatever zone the
      text named is discarded and its wall clock is read as UTC. */
  function ParseBound(s: Option<string>): (r: Result<Option<int>>)
    ensures !Given(s) ==> r == Ok(None)
    ensures Given(s) ==> (r.Ok? <==> ParseDateTime(s.value).Some?)
    ensures Given(s) && r.Ok? ==> r.value == Some(WallSeconds(ParseDateTime(s.value).value))
    ensures r.Err? ==> r.error == MalformedDate(s.value)
  {
    if !Given(s) then Ok(None)
    else
      match ParseDateTime(s.value)
      case Some(t) =>
        ReplaceIgnoresOffset(t);
        Ok(Some(Instant(ReplaceWithUtc(t))))
      case None => Err(MalformedDate(s.value))
  }

  /** The date an item carries at `path`: a falsy or absent value is no date;
      a string has every `Z` rewritten to `+00:00` and keeps its own zone. */
  function ItemDate(item: Json, path: string): (r: Result<Option<DateTime>>)
    ensures r == Ok(None) <==>
      GetNestedValue(item, path).Ok?
      && (GetNestedValue(item, path).value.None? || !Truthy(GetNestedValue(item, path).value.value))
    ensures r.Ok? && r.value.Some? ==>
      && GetNestedValue(item, path).Ok? && GetNestedValue(item, path).value.Some?
      && GetNestedValue(item, path).value.value.JString?
      && ParseDateTime(Text.ReplaceWith(GetNestedValue(item, path).value.value.s, 'Z', "+00:00"))
         == Some(r.value.value)
      && ValidDateTime(r.value.value)
    ensures GetNestedValue(item, path).Err? ==> r == Err(GetNestedValue(item, path).error)
    ensures var g := GetNestedValue(item, path);
      g.Ok? && g.value.Some? && Truthy(g.value.value) && !g.value.value.JString? ==> r == Err(NotAString)
    ensures var g := GetNestedValue(item, path);
      g.Ok? && g.value.Some? && Truthy(g.value.value) && g.value.value.JString? ==>
        var text := Text.ReplaceWith(g.value.value.s, 'Z', "+00:00");
        && (r.Ok? <==> ParseDateTime(text).Some?)
        && (r.Err? ==> r.error == MalformedDate(text))
  {
    match GetNestedValue(item, path)
    case Err(e) => Err(e)
    case Ok(v) =>
      if v.None? || !Truthy(v.value) then Ok(None)
      else if !v.value.JString? then Err(NotAString)
      else
        var text := Text.ReplaceWith(v.value.s, 'Z', "+00:00");
        match ParseDateTime(text)
        case Some(t) => Ok(Some(t))
        case None => Err(MalformedDate(text))
  }

  /** One iteration of the loop: keep, skip, or raise. A naive item date cannot
      be compared with an aware bound. */
  function KeepItem(item: Json, path: string, since: Option<int>, until: Option<int>): (r: Result<bool>)
    ensures ItemDate(item, path).Err? ==> r == Err(ItemDate(item, path).error)
    ensures ItemDate(item, path).Ok? ==>
      (r.Err? <==> ItemDate(item, path).value.Some? && ItemDate(item, path).value.value.offset.None?
                   && (since.Some? || until.Some?))
    ensures ItemDate(item, path).Ok? && r.Err? ==> r.error == NaiveAwareComparison
  {
    match ItemDate(item, path)
    case Err(e) => Err(e)
    case Ok(None) => Ok(false)
    case Ok(Some(t)) =>
      if t.offset.None? && (since.Some? || until.Some?) then Err(NaiveAwareComparison)
      else if (since.Some? && Instant(t) < since.value) || (until.Some? && Instant(t) > until.value) then Ok(false)
      else Ok(true)
  }

  /** The loop over the items once the bounds are parsed; the first raising item aborts it. */
  function Select(items: seq<Json>, path: string, since: Option<int>, until: Option<int>): (r: Result<seq<Json>>)
    ensures r.Ok? ==> |r.value| <= |items|
    decreases |items|
  {
    if |items| == 0 then Ok([])
    else
      match KeepItem(items[0], path, since, until)
      case Err(e) => Err(e)
      case Ok(keep) =>
        match Select(items[1..], path, since, until)
        case Err(e) => Err(e)
        case Ok(rest) => Ok(if keep then [items[0]] + rest else rest)
  }

  /** `filter_by_date(items, date_key, since, until)`: both bounds are parsed
      before any item is looked at. */
  function FilterByDate(items: seq<Json>, dateKey: string, since: Option<string>, until: Option<string>)
    : (r: Result<seq<Json>>)
    ensures ParseBound(since).Err? ==> r == Err(MalformedDate(since.value))
    ensures ParseBound(since).Ok? && ParseBound(until).Err? ==> r == Err(MalformedDate(until.value))
    ensures r.Ok? ==> |r.value| <= |items|
  {
    match ParseBound(since)
    case Err(e) => Err(e)
    case Ok(s) =>
      match ParseBound(until)
      case Err(e) => Err(e)
      case Ok(u) => Select(items, dateKey, s, u)
  }

  /* ---------------------------------------------------------------- properties of one item */

  /** An item is kept exactly when it has a date, that date can be compared with
      the bounds, and its instant lies inside the inclusive window. */
  lemma KeepIffInWindow(item: Json, path: string, since: Option<int>, until: Option<int>)
    ensures KeepItem(item, path, since, until) == Ok(true) <==>
      && ItemDate(item, path).Ok? && ItemDate(item, path).value.Some?
      && (ItemDate(item, path).value.value.offset.Some? || (since.None? && until.None?))
      && InWindow(Instant(ItemDate(item, path).value.value), since, until)
  {
  }

  /** A record dated without a zone makes the whole filter raise once either
      bound is given: Python refuses to order a naive date against an aware one. */
  lemma NaiveItemAborts(items: seq<Json>, dateKey: string, since: Option<string>, until: Option<string>, i: nat)
    requires i < |items|
    requires ParseBound(since).Ok? && ParseBound(until).Ok? && (Given(since) || Given(until))
    requires ItemDate(items[i], dateKey).Ok? && ItemDate(items[i], dateKey).value.Some?
    requires ItemDate(items[i], dateKey).value.value.offset.None?
    ensures FilterByDate(items, dateKey, since, until).Err?
  {
    var s := ParseBound(since).value;
    var u := ParseBound(until).value;
    assert s.Some? || u.Some?;
    assert KeepItem(items[i], dateKey, s, u).Err?;
    SelectOkIff(items, dateKey, s, u);
  }

  /** A record whose date is absent, null or empty is dropped without error. */
  lemma MissingDateDropped(item: Json, path: string, since: Option<int>, until: Option<int>)
    requires GetNestedValue(item, path) in {Ok(None), Ok(Some(JString("")))}
    ensures KeepItem(item, path, since, until) == Ok(false)
  {
  }

  /** Both ends are inclusive: a record stamped exactly at a bound is kept. */
  lemma BoundsInclusive(item: Json, path: string, since: Option<int>, until: Option<int>)
    requires ItemDate(item, path).Ok? && ItemDate(item, path).value.Some?
    requires ItemDate(item, path).value.value.offset.Some?
    requires since.Some? || until.Some?
    requires since.Some? ==> Instant(ItemDate(item, path).value.value) == since.value
    requires until.Some? ==> Instant(ItemDate(item, path).value.value) == until.value
    ensures KeepItem(item, path, since, until) == Ok(true)
  {
  }

  /* ---------------------------------------------------------------- properties of the loop */

  /** The loop succeeds exactly when no item raises. */
  lemma {:induction false} SelectOkIff(items: seq<Json>, path: string, since: Option<int>, until: Option<int>)
    ensures Select(items, path, since, until).Ok? <==>
      forall i :: 0 <= i < |items| ==> KeepItem(items[i], path, since, until).Ok?
    decreases |items|
  {
    if |items| > 0 {
      SelectOkIff(items[1..], path, since, until);
      forall i | 1 <= i < |items|
        ensures items[1..][i - 1] == items[i]
      {
      }
    }
  }

  /** The kept records are the input with some records left out, in input order. */
  lemma {:induction false} SelectSubsequence(items: seq<Json>, path: string, since: Option<int>, until: Option<int>)
    requires Select(items, path, since, until).Ok?
    ensures IsSubsequence(Select(items, path, since, until).value, items)
    decreases |items|
  {
    if |items| > 0 {
      SelectSubsequence(items[1..], path, since, until);
      var rest := Select(items[1..], path, since, until).value;
      var r := Select(items, path, since, until).value;
      if KeepItem(items[0], path, since, until) == Ok(true) {
        assert r == [items[0]] + rest;
        assert r[1..] == rest;
      } else {
        assert r == rest;
      }
    }
  }

  /** A record is in the result exactly when it is in the input and passes. */
  lemma {:induction false} SelectMembers(items: seq<Json>, path: string, since: Option<int>, until: Option<int>)
    requires Select(items, path, since, until).Ok?
    ensures forall x :: x in Select(items, path, since, until).value <==>
      x in items && KeepItem(x, path, since, until) == Ok(true)
    decreases |items|
  {
    if |items| > 0 {
      SelectMembers(items[1..], path, since, until);
      assert items == [items[0]] + items[1..];
    }
  }

  /** Every copy of a passing record is kept, and no copy of any other:
      `filtered_items.append(item)` runs once per passing record. */
  lemma {:induction false} SelectCounts(items: seq<Json>, path: string, since: Option<int>, until: Option<int>)
    requires Select(items, path, since, until).Ok?
    ensures forall x ::
      multiset(Select(items, path, since, until).value)[x]
        == if KeepItem(x, path, since, until) == Ok(true) then multiset(items)[x] else 0
    decreases |items|
  {
    if |items| > 0 {
      SelectStep(items, path, since, until);
      SelectCounts(items[1..], path, since, until);
      CountStep(items, Select(items[1..], path, since, until).value, Select(items, path, since, until).value,
                x => KeepItem(x, path, since, until) == Ok(true));
    }
  }

  /** One iteration of the loop: the first record, if it passes, ahead of what
      the rest of the loop keeps. */
  lemma SelectStep(items: seq<Json>, path: string, since: Option<int>, until: Option<int>)
    requires |items| > 0 && Select(items, path, since, until).Ok?
    ensures Select(items[1..], path, since, until).Ok?
    ensures Select(items, path, since, until).value
      == (if KeepItem(items[0], path, since, until) == Ok(true)
          then [items[0]] + Select(items[1..], path, since, until).value
          else Select(items[1..], path, since, until).value)
  {
  }

  /** One step of `SelectCounts`, over any test `pass`: `r` keeps the head of
      `items` when it passes, ahead of `rest`, which counts the tail correctly. */
  lemma CountStep(items: seq<Json>, rest: seq<Json>, r: seq<Json>, pass: Json -> bool)
    requires |items| > 0
    requires r == if pass(items[0]) then [items[0]] + rest else rest
    requires forall x :: multiset(rest)[x] == if pass(x) then multiset(items[1..])[x] else 0
    ensures forall x :: multiset(r)[x] == if pass(x) then multiset(items)[x] else 0
  {
    assert items == [items[0]] + items[1..];
    assert multiset(items) == multiset([items[0]]) + multiset(items[1..]);
    if pass(items[0]) {
      assert multiset(r) == multiset([items[0]]) + multiset(rest);
    }
  }

  /** `filter_by_date` keeps an ordered selection of its input, and a record is
      selected, with every copy of it, exactly when its date lies inside the
      window the bound strings name. */
  lemma FilterWindow(items: seq<Json>, dateKey: string, since: Option<string>, until: Option<string>)
    requires FilterByDate(items, dateKey, since, until).Ok?
    ensures ParseBound(since).Ok? && ParseBound(until).Ok?
    ensures IsSubsequence(FilterByDate(items, dateKey, since, until).value, items)
    ensures forall x :: x in FilterByDate(items, dateKey, since, until).value <==>
      && x in items
      && ItemDate(x, dateKey).Ok? && ItemDate(x, dateKey).value.Some?
      && InWindow(Instant(ItemDate(x, dateKey).value.value), ParseBound(since).value, ParseBound(until).value)
    ensures forall x :: x in FilterByDate(items, dateKey, since, until).value ==>
      multiset(FilterByDate(items, dateKey, since, until).value)[x] == multiset(items)[x]
  {
    var s := ParseBound(since).value;
    var u := ParseBound(until).value;
    SelectSubsequence(items, dateKey, s, u);
    SelectMembers(items, dateKey, s, u);
    SelectCounts(items, dateKey, s, u);
    SelectOkIff(items, dateKey, s, u);
    forall x | x in items
      ensures KeepItem(x, dateKey, s, u) == Ok(true) <==>
        ItemDate(x, dateKey).Ok? && ItemDate(x, dateKey).value.Some?
        && InWindow(Instant(ItemDate(x, dateKey).value.value), s, u)
    {
      KeepIffInWindow(x, dateKey, s, u);
    }
  }

  /* ---------------------------------------------------------------- zones */

  lemma FormatDateNoZ(d: Date)
    requires ValidDate(d)
    ensures 'Z' !in FormatDate(d)
  {
    FormatDateHasNo(d, 'Z');
  }

  lemma FormatNaiveNoZ(t: DateTime)
    requires ValidDateTime(t) && t.offset.None?
    ensures 'Z' !in FormatDateTime(t)
  {
    FormatDateNoZ(t.date);
    Text.DigitsHaveNo(Two(t.hour), 'Z');
    Text.DigitsHaveNo(Two(t.minute), 'Z');
    Text.DigitsHaveNo(Two(t.second), 'Z');
  }

  /** A bound keeps its wall clock and loses its zone: the same reading with any
      offset, or with none, is the same bound. */
  lemma BoundDiscardsOffset(t: DateTime)
    requires ValidDateTime(t)
    ensures ParseBound(Some(FormatDateTime(t))) == Ok(Some(WallSeconds(t)))
  {
    ParseFormatDateTime(t);
  }

  /** A record whose field holds a date string yields the date parsed from the
      text with `Z` rewritten. */
  lemma ItemDateOfText(key: string, text: string, t: DateTime)
    requires '.' !in key && text != ""
    requires ParseDateTime(Text.ReplaceWith(text, 'Z', "+00:00")) == Some(t)
    ensures ItemDate(JObject(map[key := JString(text)]), key) == Ok(Some(t))
  {
    SingleKeyLookup(JObject(map[key := JString(text)]), key);
  }

  /** Rewriting the trailing `Z` of a naive rendering gives the UTC rendering. */
  lemma ZuluRewrite(t: DateTime)
    requires ValidDateTime(t) && t.offset.None?
    ensures Text.ReplaceWith(FormatDateTime(t) + "Z", 'Z', "+00:00") == FormatDateTime(ReplaceWithUtc(t))
  {
    var naive := FormatDateTime(t);
    FormatNaiveNoZ(t);
    Text.ReplaceWithAbsent(naive, 'Z', "+00:00");
    ZuluAlone();
    Text.ReplaceWithAppend(naive, "Z", 'Z', "+00:00");
    UtcRendering(t);
  }

  lemma ZuluAlone()
    ensures Text.ReplaceWith("Z", 'Z', "+00:00") == "+00:00"
  {
    assert "Z"[1..] == [];
  }

  /** The UTC rendering is the naive one followed by `+00:00`. */
  lemma UtcRendering(t: DateTime)
    requires ValidDateTime(t) && t.offset.None?
    ensures FormatDateTime(ReplaceWithUtc(t)) == FormatDateTime(t) + "+00:00"
  {
    assert FormatOffset(Some(0)) == "+00:00" by {
      assert Two(0) == "00";
    }
  }

  /** An item stamped `...Z` is read as UTC: the `Z` becomes `+00:00`. */
  lemma ItemZuluIsUtc(t: DateTime, key: string)
    requires ValidDateTime(t) && t.offset.None?
    requires '.' !in key
    ensures ItemDate(JObject(map[key := JString(FormatDateTime(t) + "Z")]), key)
            == Ok(Some(ReplaceWithUtc(t)))
  {
    ZuluRewrite(t);
    ParseFormatDateTime(ReplaceWithUtc(t));
    ItemDateOfText(key, FormatDateTime(t) + "Z", ReplaceWithUtc(t));
  }

  /** A rendering with a numeric offset has no `Z` to rewrite. */
  lemma OffsetRenderingNoZ(t: DateTime)
    requires ValidDateTime(t) && t.offset.Some?
    ensures 'Z' !in FormatDateTime(t)
  {
    var naive := FormatDateTime(t.(offset := None));
    assert FormatDateTime(t) == naive + FormatOffset(t.offset);
    FormatNaiveNoZ(t.(offset := None));
    var o := t.offset.value;
    var a := if o < 0 then -o else o;
    Text.DigitsHaveNo(Two(a / 60), 'Z');
    Text.DigitsHaveNo(Two(a % 60), 'Z');
  }

  /** An item with an explicit offset keeps it, unlike a bound: its instant is
      its wall clock shifted by that offset. */
  lemma ItemKeepsOffset(t: DateTime, key: string)
    requires ValidDateTime(t) && t.offset.Some?
    requires '.' !in key
    ensures ItemDate(JObject(map[key := JString(FormatDateTime(t))]), key) == Ok(Some(t))
    ensures Instant(t) == WallSeconds(t) - t.offset.value * 60
  {
    OffsetRenderingNoZ(t);
    Text.ReplaceWithAbsent(FormatDateTime(t), 'Z', "+00:00");
    ParseFormatDateTime(t);
    ItemDateOfText(key, FormatDateTime(t), t);
  }

  /** Filtering a single record keeps it exactly when it passes. */
  lemma SelectOne(item: Json, path: string, since: Option<int>, until: Option<int>)
    requires KeepItem(item, path, since, until).Ok?
    ensures Select([item], path, since, until)
      == Ok(if KeepItem(item, path, since, until).value then [item] else [])
  {
    var items := [item];
    assert items[0] == item;
    assert items[1..] == [];
    assert Select(items[1..], path, since, until) == Ok([]);
    assert [item] + [] == [item];
  }

  /** The record of the lemma below, stamped `...Z`, is filtered by its wall clock read as UTC. */
  lemma ZuluRecord(t: DateTime, since: Option<int>, until: Option<int>)
    requires ValidDateTime(t) && t.offset.None?
    ensures var item := JObject(map["closed_at" := JString(FormatDateTime(t) + "Z")]);
      KeepItem(item, "closed_at", since, until) == Ok(InWindow(WallSeconds(t), since, until))
  {
    var item := JObject(map["closed_at" := JString(FormatDateTime(t) + "Z")]);
    ItemZuluIsUtc(t, "closed_at");
    ReplaceIgnoresOffset(t);
    KeepAware(item, "closed_at", since, until, ReplaceWithUtc(t));
  }

  /** A record stamped with a numeric offset is filtered by its wall clock
      shifted back by that offset. */
  lemma OffsetRecord(t: DateTime, since: Option<int>, until: Option<int>)
    requires ValidDateTime(t) && t.offset.Some?
    ensures var item := JObject(map["closed_at" := JString(FormatDateTime(t))]);
      KeepItem(item, "closed_at", since, until) == Ok(InWindow(WallSeconds(t) - t.offset.value * 60, since, until))
  {
    ItemKeepsOffset(t, "closed_at");
    KeepAware(JObject(map["closed_at" := JString(FormatDateTime(t))]), "closed_at", since, until, t);
  }

  /** A record with an aware date is kept exactly when that instant is in the window. */
  lemma KeepAware(item: Json, path: string, since: Option<int>, until: Option<int>, t: DateTime)
    requires ItemDate(item, path) == Ok(Some(t)) && t.offset.Some?
    ensures KeepItem(item, path, since, until) == Ok(InWindow(Instant(t), since, until))
  {
  }

  /** Items and bounds read zones differently: an item closed at 10:00+05:00
      (05:00 UTC) passes `until = 06:00` and fails `since = 06:00`, although its
      wall clock is later, while a bound `06:00+05:00` would still mean 06:00 UTC. */
  lemma EastOffsetBeforeUtcBound()
    ensures var t := DateTime(Date(2024, 1, 1), 10, 0, 0, Some(300));
      var b := DateTime(Date(2024, 1, 1), 6, 0, 0, None);
      var item := JObject(map["closed_at" := JString(FormatDateTime(t))]);
      && FilterByDate([item], "closed_at", None, Some(FormatDateTime(b))) == Ok([item])
      && FilterByDate([item], "closed_at", Some(FormatDateTime(b)), None) == Ok([])
      && ParseBound(Some(FormatDateTime(b.(offset := Some(300))))) == ParseBound(Some(FormatDateTime(b)))
  {
    var t := DateTime(Date(2024, 1, 1), 10, 0, 0, Some(300));
    var b := DateTime(Date(2024, 1, 1), 6, 0, 0, None);
    var item := JObject(map["closed_at" := JString(FormatDateTime(t))]);
    var bound := WallSeconds(b);
    BoundDiscardsOffset(b);
    BoundDiscardsOffset(b.(offset := Some(300)));
    assert WallSeconds(b.(offset := Some(300))) == bound;
    assert WallSeconds(t) - 300 * 60 < bound;
    OffsetRecord(t, None, Some(bound));
    OffsetRecord(t, Some(bound), None);
    assert ParseBound(None) == Ok(None);
    SelectOne(item, "closed_at", None, Some(bound));
    SelectOne(item, "closed_at", Some(bound), None);
  }

  /** A date-only bound is the first second of that day in UTC. */
  lemma DateBound(d: Date)
    requires ValidDate(d)
    ensures ParseBound(Some(FormatDate(d))) == Ok(Some(DayStart(d)))
  {
    ParseDateOnly(d);
    WithinDay(StartOfDay(d));
    assert Given(Some(FormatDate(d)));
  }

  /** A date-only `until` is 00:00 UTC of that day, so a record stamped later
      that day is dropped, even when `since` is the same day; a date-only `since`
      keeps it. */
  lemma DateOnlyUntilIsMidnight(d: Date, hour: int, minute: int, second: int)
    requires ValidDate(d) && 0 <= hour < 24 && 0 <= minute < 60 && 0 <= second < 60
    requires hour > 0 || minute > 0 || second > 0
    ensures var t := DateTime(d, hour, minute, second, None);
      var item := JObject(map["closed_at" := JString(FormatDateTime(t) + "Z")]);
      && FilterByDate([item], "closed_at", None, Some(FormatDate(d))) == Ok([])
      && FilterByDate([item], "closed_at", Some(FormatDate(d)), Some(FormatDate(d))) == Ok([])
      && FilterByDate([item], "closed_at", Some(FormatDate(d)), None) == Ok([item])
  {
    var t := DateTime(d, hour, minute, second, None);
    var item := JObject(map["closed_at" := JString(FormatDateTime(t) + "Z")]);
    var day := Some(FormatDate(d));
    var midnight := WallSeconds(StartOfDay(d));
    assert ParseBound(day) == Ok(Some(midnight)) by {
      ParseDateOnly(d);
    }
    assert ParseBound(None) == Ok(None);
    assert WallSeconds(t) > midnight by {
      WithinDay(t);
    }
    ZuluRecord(t, None, Some(midnight));
    ZuluRecord(t, Some(midnight), Some(midnight));
    ZuluRecord(t, Some(midnight), None);
    SelectOne(item, "closed_at", None, Some(midnight));
    SelectOne(item, "closed_at", Some(midnight), Some(midnight));
    SelectOne(item, "closed_at", Some(midnight), None);
  }
}
