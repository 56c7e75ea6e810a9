/** Proleptic Gregorian dates as Python's `datetime.date` numbers them:
    day 1 is 0001-01-01 and years run from 1 to 9999. */
module Calendar {
  import opened Outcomes
  import Text

  datatype Date = Date(year: int, month: int, day: int)

  const MaxYear: int := 9999
  /** `date(9999, 12, 31).toordinal()`. */
  const MaxOrdinal: int := 3652059

  predicate IsLeapYear(y: int) {
    y % 4 == 0 && (y % 100 != 0 || y % 400 == 0)
  }

  function DaysInYear(y: int): int {
    if IsLeapYear(y) then 366 else 365
  }

  function DaysInMonth(y: int, m: int): int
    requires 1 <= m <= 12
  {
    if m == 2 then (if IsLeapYear(y) then 29 else 28)
    else if m == 4 || m == 6 || m == 9 || m == 11 then 30
    else 31
  }

  /** Days in the months before month `m` of year `y`; `m == 13` gives the whole year. */
  function DaysBeforeMonth(y: int, m: int): int
    requires 1 <= m <= 13
  {
    [0, 31, 59, 90, 120, 151, 181, 212, 243, 273, 304, 334, 365][m - 1]
    + (if m > 2 && IsLeapYear(y) then 1 else 0)
  }

  /** Days in the years before year `y`. */
  function DaysBeforeYear(y: int): int
    requires y >= 1
  {
    var p := y - 1;
    p * 365 + p / 4 - p / 100 + p / 400
  }

  predicate ValidDate(d: Date) {
    1 <= d.year <= MaxYear && 1 <= d.month <= 12 && 1 <= d.day <= DaysInMonth(d.year, d.month)
  }

  /* ---------------------------------------------------------------- year and month lengths */

  /** The closed form of `DaysBeforeYear` adds exactly the length of each year. */
  lemma YearLength(y: int)
    requires y >= 1
    ensures DaysBeforeYear(y + 1) == DaysBeforeYear(y) + DaysInYear(y)
  {
    var p := y - 1;
    assert y / 4 == p / 4 + (if y % 4 == 0 then 1 else 0);
    assert y / 100 == p / 100 + (if y % 100 == 0 then 1 else 0);
    assert y / 400 == p / 400 + (if y % 400 == 0 then 1 else 0);
    assert y % 400 == 0 ==> y % 100 == 0 && y % 4 == 0;
    assert y % 100 == 0 ==> y % 4 == 0;
  }

  lemma MonthLength(y: int, m: int)
    requires 1 <= m <= 12
    ensures DaysBeforeMonth(y, m + 1) == DaysBeforeMonth(y, m) + DaysInMonth(y, m)
  {
  }

  lemma {:induction false} YearsGrow(a: int, b: int)
    requires 1 <= a < b
    ensures DaysBeforeYear(a) + DaysInYear(a) <= DaysBeforeYear(b)
    decreases b - a
  {
    YearLength(a);
    if a + 1 < b {
      YearsGrow(a + 1, b);
    }
  }

  lemma {:induction false} MonthsGrow(y: int, a: int, b: int)
    requires 1 <= a < b <= 13
    ensures DaysBeforeMonth(y, a) + DaysInMonth(y, a) <= DaysBeforeMonth(y, b)
    decreases b - a
  {
    MonthLength(y, a);
    if a + 1 < b {
      MonthsGrow(y, a + 1, b);
    }
  }

  lemma LastOrdinal()
    ensures DaysBeforeYear(MaxYear + 1) == MaxOrdinal
  {
  }

  /** Every supported year ends by the last supported day. */
  lemma YearWithinRange(y: int)
    requires 1 <= y <= MaxYear
    ensures DaysBeforeYear(y) + DaysInYear(y) <= MaxOrdinal
  {
    LastOrdinal();
    if y < MaxYear {
      YearsGrow(y, MaxYear + 1);
    } else {
      YearLength(y);
    }
  }

  /* ---------------------------------------------------------------- ordinals */

  /** `date.toordinal()`: the day number of a valid date, counting 0001-01-01 as 1. */
  function ToOrdinal(d: Date): (n: int)
    requires ValidDate(d)
    ensures 1 <= n <= MaxOrdinal
    ensures DaysBeforeYear(d.year) < n <= DaysBeforeYear(d.year) + DaysInYear(d.year)
  {
    MonthsGrow(d.year, d.month, 13);
    YearWithinRange(d.year);
    DaysBeforeYear(d.year) + DaysBeforeMonth(d.year, d.month) + d.day
  }

  /** The year holding day `n`, searched upward from year `y`. */
  function FindYear(n: int, y: int): (r: int)
    requires 1 <= y <= MaxYear
    requires DaysBeforeYear(y) < n <= MaxOrdinal
    ensures y <= r <= MaxYear
    ensures DaysBeforeYear(r) < n <= DaysBeforeYear(r) + DaysInYear(r)
    decreases MaxYear - y
  {
    YearLength(y);
    LastOrdinal();
    if n <= DaysBeforeYear(y + 1) then y else FindYear(n, y + 1)
  }

  /** The month holding day `k` of year `y`, searched upward from month `m`. */
  function FindMonth(y: int, k: int, m: int): (r: int)
    requires 1 <= m <= 12
    requires DaysBeforeMonth(y, m) < k <= DaysInYear(y)
    ensures m <= r <= 12
    ensures DaysBeforeMonth(y, r) < k <= DaysBeforeMonth(y, r) + DaysInMonth(y, r)
    decreases 12 - m
  {
    MonthLength(y, m);
    if k <= DaysBeforeMonth(y, m + 1) then m else FindMonth(y, k, m + 1)
  }

  /** `date.fromordinal(n)`: the valid date whose day number is `n`. */
  function FromOrdinal(n: int): (d: Date)
    requires 1 <= n <= MaxOrdinal
    ensures ValidDate(d)
    ensures ToOrdinal(d) == n
  {
    var y := FindYear(n, 1);
    var k := n - DaysBeforeYear(y);
    var m := FindMonth(y, k, 1);
    Date(y, m, k - DaysBeforeMonth(y, m))
  }

  /** Day numbers identify dates: `fromordinal(toordinal(d)) == d`. */
  lemma OrdinalRoundTrip(d: Date)
    requires ValidDate(d)
    ensures FromOrdinal(ToOrdinal(d)) == d
  {
    var n := ToOrdinal(d);
    var e := FromOrdinal(n);
    if e.year < d.year {
      YearsGrow(e.year, d.year);
    } else if d.year < e.year {
      YearsGrow(d.year, e.year);
    }
    assert e.year == d.year;
    if e.month < d.month {
      MonthsGrow(d.year, e.month, d.month);
    } else if d.month < e.month {
      MonthsGrow(d.year, d.month, e.month);
    }
  }

  /** Ordinals order dates chronologically: lexicographically by year, month, day. */
  lemma OrdinalOrder(a: Date, b: Date)
    requires ValidDate(a) && ValidDate(b)
    ensures ToOrdinal(a) < ToOrdinal(b) <==>
      a.year < b.year
      || (a.year == b.year && a.month < b.month)
      || (a.year == b.year && a.month == b.month && a.day < b.day)
  {
    if a.year < b.year {
      YearsGrow(a.year, b.year);
    } else if b.year < a.year {
      YearsGrow(b.year, a.year);
    } else if a.month < b.month {
      MonthsGrow(a.year, a.month, b.month);
    } else if b.month < a.month {
      MonthsGrow(a.year, b.month, a.month);
    }
  }

  /** `d - timedelta(days=days)`, which raises `OverflowError` outside years 1..9999. */
  function SubtractDays(d: Date, days: int): (r: Result<Date>)
    requires ValidDate(d)
    ensures r.Ok? <==> 1 <= ToOrdinal(d) - days <= MaxOrdinal
    ensures r.Ok? ==> ValidDate(r.value) && ToOrdinal(r.value) + days == ToOrdinal(d)
    ensures r.Err? ==> r.error == DateOutOfRange
  {
    var n := ToOrdinal(d) - days;
    if 1 <= n <= MaxOrdinal then Ok(FromOrdinal(n)) else Err(DateOutOfRange)
  }

  /* ---------------------------------------------------------------- ISO text */

  /** `date.isoformat()`: `YYYY-MM-DD`, zero-padded. */
  function FormatDate(d: Date): (s: string)
    requires ValidDate(d)
    ensures |s| == 10
  {
    Text.FixedDigits(d.year, 4) + "-" + Text.FixedDigits(d.month, 2) + "-" + Text.FixedDigits(d.day, 2)
  }

  /** A date's text holds only digits and `-`. */
  lemma FormatDateHasNo(d: Date, c: char)
    requires ValidDate(d)
    requires !Text.IsDigit(c) && c != '-'
    ensures c !in FormatDate(d)
  {
    Text.DigitsHaveNo(Text.FixedDigits(d.year, 4), c);
    Text.DigitsHaveNo(Text.FixedDigits(d.month, 2), c);
    Text.DigitsHaveNo(Text.FixedDigits(d.day, 2), c);
  }

  /** The `YYYY-MM-DD` form of `fromisoformat`: ASCII digits, `-` separators and a real date. */
  function ParseDate(s: string): (r: Option<Date>)
    ensures r.Some? ==> ValidDate(r.value)
  {
    if |s| == 10 && s[4] == '-' && s[7] == '-'
       && Text.AllDigits(s[..4]) && Text.AllDigits(s[5..7]) && Text.AllDigits(s[8..])
    then
      var d := Date(Text.DigitsValue(s[..4]), Text.DigitsValue(s[5..7]), Text.DigitsValue(s[8..]));
      if ValidDate(d) then Some(d) else None
    else None
  }

  lemma Pow10Values()
    ensures Text.Pow10(2) == 100 && Text.Pow10(4) == 10000
  {
    assert Text.Pow10(1) == 10;
    assert Text.Pow10(3) == 1000;
  }

  /** The characters of a formatted date are digits and dashes only. */
  lemma FormatDateChars(d: Date, i: int)
    requires ValidDate(d) && 0 <= i < 10
    ensures Text.IsDigit(FormatDate(d)[i]) || FormatDate(d)[i] == '-'
  {
  }

  /** Where the fields of a date sit in its rendering. */
  lemma FormatDateSlices(d: Date)
    requires ValidDate(d)
    ensures var s := FormatDate(d);
      && s[4] == '-' && s[7] == '-'
      && s[..4] == Text.FixedDigits(d.year, 4)
      && s[5..7] == Text.FixedDigits(d.month, 2)
      && s[8..] == Text.FixedDigits(d.day, 2)
  {
  }

  /** Parsing an ISO date gives back the date it renders. */
  lemma {:induction false} ParseFormatDate(d: Date)
    requires ValidDate(d)
    ensures ParseDate(FormatDate(d)) == Some(d)
  {
    FormatDateSlices(d);
    Pow10Values();
    Text.FixedDigitsValue(d.year, 4);
    Text.FixedDigitsValue(d.month, 2);
    Text.FixedDigitsValue(d.day, 2);
  }

  /** A string that parses as a date is exactly that date's rendering. */
  lemma {:induction false} FormatParsedDate(s: string)
    requires ParseDate(s).Some?
    ensures FormatDate(ParseDate(s).value) == s
  {
    Text.DigitsValueFixed(s[..4]);
    Text.DigitsValueFixed(s[5..7]);
    Text.DigitsValueFixed(s[8..]);
    assert s == s[..4] + "-" + s[5..7] + "-" + s[8..];
  }
}
