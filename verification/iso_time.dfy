/** The ISO-8601 date-times the client meets, as `datetime.fromisoformat`
    reads them and `datetime.isoformat` writes them, and the instants they
    denote in seconds since 1970-01-01T00:00:00Z.

    Accepted forms: `YYYY-MM-DD`, and `YYYY-MM-DDTHH:MM:SS` followed by
    nothing (naive), `Z`, or `+HH:MM` / `-HH:MM`. */
module IsoTime {
  import opened Outcomes
  import Text
  import opened Calendar

  /** A `datetime`; `offset` is the zone in minutes east of UTC, `None` when naive. */
  datatype DateTime = DateTime(date: Date, hour: int, minute: int, second: int, offset: Option<int>)

  /** The widest `±HH:MM` offset: Python requires it strictly inside one day. */
  const MaxOffsetMinutes: int := 23 * 60 + 59

  /** `date(1970, 1, 1).toordinal()`. */
  const EpochOrdinal: int := 719163

  const SecondsPerDay: int := 86400

  predicate ValidDateTime(t: DateTime) {
    && ValidDate(t.date)
    && 0 <= t.hour < 24 && 0 <= t.minute < 60 && 0 <= t.second < 60
    && (t.offset.Some? ==> -MaxOffsetMinutes <= t.offset.value <= MaxOffsetMinutes)
  }

  /** Midnight at the start of a date, as a naive `datetime`. */
  function StartOfDay(d: Date): DateTime {
    DateTime(d, 0, 0, 0, None)
  }

  /** `.replace(tzinfo=UTC)`: keep the wall clock, discard any zone, attach UTC. */
  function ReplaceWithUtc(t: DateTime): (u: DateTime)
    ensures u.offset == Some(0)
    ensures u.date == t.date && u.hour == t.hour && u.minute == t.minute && u.second == t.second
  {
    t.(offset := Some(0))
  }

  /** Seconds since the epoch of the wall-clock reading, as if it were UTC. */
  function WallSeconds(t: DateTime): int
    requires ValidDateTime(t)
  {
    (ToOrdinal(t.date) - EpochOrdinal) * SecondsPerDay + t.hour * 3600 + t.minute * 60 + t.second
  }

  /** The instant an aware value denotes: its wall clock shifted back by its offset. */
  function Instant(t: DateTime): int
    requires ValidDateTime(t)
  {
    WallSeconds(t) - (if t.offset.Some? then t.offset.value * 60 else 0)
  }

  /** The first second of a date, in seconds since the epoch. */
  function DayStart(d: Date): int
    requires ValidDate(d)
  {
    (ToOrdinal(d) - EpochOrdinal) * SecondsPerDay
  }

  /* ---------------------------------------------------------------- parsing */

  predicate DigitPairAt(s: string, i: int)
    requires 0 <= i && i + 2 <= |s|
  {
    Text.AllDigits(s[i..i + 2])
  }

  /** The zone suffix after the seconds: `None` when malformed, `Some(None)` when
      absent (naive), `Some(Some(minutes))` otherwise. As in Python, the hour and
      minute fields are not range-checked one by one: only the whole offset
      must stay below a day, which `datetime.timezone` demands. */
  function ParseOffset(z: string): (r: Option<Option<int>>)
    ensures r.Some? && r.value.Some? ==> -MaxOffsetMinutes <= r.value.value <= MaxOffsetMinutes
  {
    if z == "" then Some(None)
    else if z == "Z" then Some(Some(0))
    else if |z| == 6 && (z[0] == '+' || z[0] == '-') && z[3] == ':'
            && DigitPairAt(z, 1) && DigitPairAt(z, 4) then
      var hh := Text.DigitsValue(z[1..3]);
      var mm := Text.DigitsValue(z[4..6]);
      if hh * 60 + mm <= MaxOffsetMinutes then
        Some(Some(if z[0] == '-' then -(hh * 60 + mm) else hh * 60 + mm))
      else None
    else None
  }

  /** `datetime.fromisoformat(s)` on the accepted forms; `None` stands for `ValueError`. */
  function ParseDateTime(s: string): (r: Option<DateTime>)
    ensures r.Some? ==> ValidDateTime(r.value)
  {
    if |s| == 10 then
      match ParseDate(s)
      case Some(d) => Some(StartOfDay(d))
      case None => None
    else if |s| >= 19 && s[10] == 'T' && s[13] == ':' && s[16] == ':'
            && DigitPairAt(s, 11) && DigitPairAt(s, 14) && DigitPairAt(s, 17) then
      var date := ParseDate(s[..10]);
      var h := Text.DigitsValue(s[11..13]);
      var m := Text.DigitsValue(s[14..16]);
      var sec := Text.DigitsValue(s[17..19]);
      var zone := ParseOffset(s[19..]);
      if date.Some? && zone.Some? && h < 24 && m < 60 && sec < 60 then
        Some(DateTime(date.value, h, m, sec, zone.value))
      else None
    else None
  }

  /* ---------------------------------------------------------------- formatting */

  function Two(n: nat): string {
    Text.FixedDigits(n, 2)
  }

  /** The `+HH:MM` / `-HH:MM` suffix `isoformat` writes for an offset. */
  function FormatOffset(offset: Option<int>): (z: string)
    ensures offset.None? ==> z == ""
    ensures offset.Some? ==> |z| == 6
  {
    match offset
    case None => ""
    case Some(o) =>
      var a := if o < 0 then -o else o;
      (if o < 0 then "-" else "+") + Two(a / 60) + ":" + Two(a % 60)
  }

  /** `datetime.isoformat()` for whole seconds. */
  function FormatDateTime(t: DateTime): (s: string)
    requires ValidDateTime(t)
    ensures |s| == 19 + |FormatOffset(t.offset)|
  {
    FormatDate(t.date) + "T" + Two(t.hour) + ":" + Two(t.minute) + ":" + Two(t.second)
    + FormatOffset(t.offset)
  }

  /* ---------------------------------------------------------------- round trips */

  lemma TwoDigitsValue(n: nat)
    requires n < 100
    ensures Text.DigitsValue(Two(n)) == n
  {
    Calendar.Pow10Values();
    Text.FixedDigitsValue(n, 2);
  }

  lemma ParseFormatOffset(offset: Option<int>)
    requires offset.Some? ==> -MaxOffsetMinutes <= offset.value <= MaxOffsetMinutes
    ensures ParseOffset(FormatOffset(offset)) == Some(offset)
  {
    if offset.Some? {
      var o := offset.value;
      var a := if o < 0 then -o else o;
      OffsetSlices(o);
      TwoDigitsValue(a / 60);
      TwoDigitsValue(a % 60);
      ParseOffsetFields(FormatOffset(offset), o);
    }
  }

  /** Where sign, hours and minutes sit in a rendered offset. */
  lemma OffsetSlices(o: int)
    requires -MaxOffsetMinutes <= o <= MaxOffsetMinutes
    ensures var z := FormatOffset(Some(o));
      var a := if o < 0 then -o else o;
      && |z| == 6 && z[0] == (if o < 0 then '-' else '+') && z[3] == ':'
      && z[1..3] == Two(a / 60) && z[4..6] == Two(a % 60)
  {
    var a := if o < 0 then -o else o;
    Pieces((if o < 0 then "-" else "+"), Two(a / 60), ":", Two(a % 60));
  }

  /** Where the pieces of a sign, two digits, a separator and two digits sit. */
  lemma Pieces(p: string, q: string, c: string, w: string)
    requires |p| == 1 && |q| == 2 && |c| == 1 && |w| == 2
    ensures var z := p + q + c + w;
      && |z| == 6 && z[0] == p[0] && z[1..3] == q && z[3] == c[0] && z[4..6] == w
  {
    var z := p + q + c + w;
    assert z[1..3] == q;
    assert z[4..6] == w;
  }

  /** A suffix with the fields of offset `o` in place parses to `o`. */
  lemma ParseOffsetFields(z: string, o: int)
    requires -MaxOffsetMinutes <= o <= MaxOffsetMinutes
    requires var a := if o < 0 then -o else o;
      && |z| == 6 && z[0] == (if o < 0 then '-' else '+') && z[3] == ':'
      && z[1..3] == Two(a / 60) && z[4..6] == Two(a % 60)
      && Text.DigitsValue(Two(a / 60)) == a / 60 && Text.DigitsValue(Two(a % 60)) == a % 60
    ensures ParseOffset(z) == Some(Some(o))
  {
  }

  /** The minutes field may exceed 59 as long as the whole offset is under a
      day: `+00:75` is an hour and a quarter east, `+23:60` is a whole day and
      is refused. */
  lemma OffsetFieldsUnchecked()
    ensures ParseOffset("+00:75") == Some(Some(75))
    ensures ParseOffset("-05:60") == Some(Some(-360))
    ensures ParseOffset("+23:60") == None
  {
    ParseOffsetText("+00:75");
    ParseOffsetText("-05:60");
    ParseOffsetText("+23:60");
  }

  /** A six-character `±HH:MM` suffix parses to its hours and minutes, signed,
      exactly when they come to less than a day. */
  lemma ParseOffsetText(z: string)
    requires |z| == 6 && (z[0] == '+' || z[0] == '-') && z[3] == ':'
    requires Text.IsDigit(z[1]) && Text.IsDigit(z[2]) && Text.IsDigit(z[4]) && Text.IsDigit(z[5])
    ensures var m := (10 * Text.DigitValue(z[1]) + Text.DigitValue(z[2])) * 60
                     + 10 * Text.DigitValue(z[4]) + Text.DigitValue(z[5]);
      ParseOffset(z) == if m <= MaxOffsetMinutes then Some(Some(if z[0] == '-' then -m else m)) else None
  {
    PairValue(z[1..3]);
    PairValue(z[4..6]);
  }

  lemma PairValue(p: string)
    requires |p| == 2 && Text.IsDigit(p[0]) && Text.IsDigit(p[1])
    ensures Text.AllDigits(p)
    ensures Text.DigitsValue(p) == 10 * Text.DigitValue(p[0]) + Text.DigitValue(p[1])
  {
    var head := p[..1];
    assert head[..0] == [] && head[0] == p[0];
    assert Text.DigitsValue(head) == Text.DigitValue(p[0]);
    assert p[..|p| - 1] == head;
  }

  /** `fromisoformat(dt.isoformat()) == dt` for every supported value. */
  lemma {:induction false} ParseFormatDateTime(t: DateTime)
    requires ValidDateTime(t)
    ensures ParseDateTime(FormatDateTime(t)) == Some(t)
  {
    DateTimeSlices(t);
    Calendar.ParseFormatDate(t.date);
    TwoDigitsValue(t.hour);
    TwoDigitsValue(t.minute);
    TwoDigitsValue(t.second);
    ParseFormatOffset(t.offset);
    ParseDateTimeFields(FormatDateTime(t), t);
  }

  /** Where the fields of a date-time sit in its rendering. */
  lemma DateTimeSlices(t: DateTime)
    requires ValidDateTime(t)
    ensures var s := FormatDateTime(t);
      && |s| >= 19 && s[10] == 'T' && s[13] == ':' && s[16] == ':'
      && s[..10] == FormatDate(t.date)
      && s[11..13] == Two(t.hour) && s[14..16] == Two(t.minute) && s[17..19] == Two(t.second)
      && s[19..] == FormatOffset(t.offset)
  {
  }

  /** A string with the fields of `t` in place, each reading back as itself, parses to `t`. */
  lemma ParseDateTimeFields(s: string, t: DateTime)
    requires ValidDateTime(t)
    requires |s| >= 19 && s[10] == 'T' && s[13] == ':' && s[16] == ':'
    requires s[..10] == FormatDate(t.date) && ParseDate(FormatDate(t.date)) == Some(t.date)
    requires s[11..13] == Two(t.hour) && Text.DigitsValue(Two(t.hour)) == t.hour
    requires s[14..16] == Two(t.minute) && Text.DigitsValue(Two(t.minute)) == t.minute
    requires s[17..19] == Two(t.second) && Text.DigitsValue(Two(t.second)) == t.second
    requires s[19..] == FormatOffset(t.offset) && ParseOffset(FormatOffset(t.offset)) == Some(t.offset)
    ensures ParseDateTime(s) == Some(t)
  {
  }

  /** A date-only string reads as midnight of that date, with no zone. */
  lemma ParseDateOnly(d: Date)
    requires ValidDate(d)
    ensures ParseDateTime(FormatDate(d)) == Some(StartOfDay(d))
  {
    Calendar.ParseFormatDate(d);
  }

  /** The characters `fromisoformat` accepts here besides digits. */
  predicate IsoMark(c: char) {
    c == '-' || c == 'T' || c == ':' || c == 'Z' || c == '+'
  }

  /** A string that parses as a date is made of digits and dashes. */
  lemma ParsedDateChars(s: string)
    requires Calendar.ParseDate(s).Some?
    ensures forall i :: 0 <= i < |s| ==> Text.IsDigit(s[i]) || s[i] == '-'
  {
    forall i | 0 <= i < |s|
      ensures Text.IsDigit(s[i]) || s[i] == '-'
    {
      if i < 4 {
        assert s[..4][i] == s[i];
      } else if 5 <= i < 7 {
        assert s[5..7][i - 5] == s[i];
      } else if 8 <= i {
        assert s[8..][i - 8] == s[i];
      }
    }
  }

  /** A string that parses as a date-time is made of digits and ISO marks only. */
  lemma ParsedChars(s: string)
    requires ParseDateTime(s).Some?
    ensures forall i :: 0 <= i < |s| ==> Text.IsDigit(s[i]) || IsoMark(s[i])
  {
    if |s| == 10 {
      ParsedDateChars(s);
    } else {
      ParsedDateChars(s[..10]);
      ParsedOffsetChars(s[19..]);
      forall i | 0 <= i < |s|
        ensures Text.IsDigit(s[i]) || IsoMark(s[i])
      {
        if i < 10 {
          assert s[..10][i] == s[i];
        } else if 11 <= i < 13 {
          assert s[11..13][i - 11] == s[i];
        } else if 14 <= i < 16 {
          assert s[14..16][i - 14] == s[i];
        } else if 17 <= i < 19 {
          assert s[17..19][i - 17] == s[i];
        } else if 19 <= i {
          assert s[19..][i - 19] == s[i];
        }
      }
    }
  }

  lemma ParsedOffsetChars(z: string)
    requires ParseOffset(z).Some?
    ensures forall i :: 0 <= i < |z| ==> Text.IsDigit(z[i]) || IsoMark(z[i])
  {
    if |z| == 6 {
      forall i | 0 <= i < 6
        ensures Text.IsDigit(z[i]) || IsoMark(z[i])
      {
        if 1 <= i < 3 {
          assert z[1..3][i - 1] == z[i];
        } else if 4 <= i {
          assert z[4..6][i - 4] == z[i];
        }
      }
    }
  }

  /** A character that is neither a digit nor an ISO mark never occurs in a
      string that parses as a date-time. */
  lemma ParsedHasNo(s: string, c: char)
    requires ParseDateTime(s).Some?
    requires !Text.IsDigit(c) && !IsoMark(c)
    ensures c !in s
  {
    ParsedChars(s);
  }

  /* ---------------------------------------------------------------- instants */

  /** 1970-01-01T00:00:00 is instant 0. */
  lemma EpochIsZero()
    ensures ValidDate(Date(1970, 1, 1)) && ToOrdinal(Date(1970, 1, 1)) == EpochOrdinal
  {
  }

  /** Every second of a day lies in the half-open interval that starts at its midnight. */
  lemma WithinDay(t: DateTime)
    requires ValidDateTime(t)
    ensures DayStart(t.date) <= WallSeconds(t) < DayStart(t.date) + SecondsPerDay
    ensures WallSeconds(t) == DayStart(t.date) <==> t.hour == 0 && t.minute == 0 && t.second == 0
  {
  }

  /** Instants order wall clocks chronologically: an earlier date is an earlier
      instant whatever the time of day. */
  lemma EarlierDateEarlierInstant(a: DateTime, b: DateTime)
    requires ValidDateTime(a) && ValidDateTime(b)
    requires ToOrdinal(a.date) < ToOrdinal(b.date)
    ensures WallSeconds(a) < WallSeconds(b)
  {
    WithinDay(a);
    WithinDay(b);
  }

  /** Replacing the zone keeps the wall clock as the UTC instant, whatever offset was there. */
  lemma ReplaceIgnoresOffset(t: DateTime)
    requires ValidDateTime(t)
    ensures ValidDateTime(ReplaceWithUtc(t))
    ensures WallSeconds(ReplaceWithUtc(t)) == WallSeconds(t)
    ensures Instant(ReplaceWithUtc(t)) == WallSeconds(t)
  {
  }
}
