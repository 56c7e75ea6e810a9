/** String helpers the client relies on: `str.split`, `str.join`,
    `str.replace`, `str(int)`, zero-padded `%0Nd` formatting and
    `os.path.join` for two POSIX path components. */
module Text {

  /* ---------------------------------------------------------------- split/join */

  /** `s.split(sep)` for a one-character separator: the runs between
      separators, so k separators give k + 1 parts (possibly empty). */
  function Split(s: string, sep: char): (parts: seq<string>)
    ensures |parts| >= 1
    decreases |s|
  {
    if |s| == 0 then [""]
    else
      var rest := Split(s[1..], sep);
      if s[0] == sep then [""] + rest
      else [[s[0]] + rest[0]] + rest[1..]
  }

  /** No part of a split holds the separator. */
  lemma {:induction false} SplitPartsFree(s: string, sep: char)
    ensures forall i :: 0 <= i < |Split(s, sep)| ==> sep !in Split(s, sep)[i]
    decreases |s|
  {
    if |s| > 0 {
      SplitPartsFree(s[1..], sep);
      var rest := Split(s[1..], sep);
      if s[0] != sep {
        assert sep !in [s[0]] + rest[0];
      }
    }
  }

  /** `sep.join(parts)`. */
  function Join(parts: seq<string>, sep: char): string
    decreases |parts|
  {
    if |parts| == 0 then ""
    else if |parts| == 1 then parts[0]
    else parts[0] + [sep] + Join(parts[1..], sep)
  }

  /** The text left by writing each line followed by `sep`, one write per line. */
  function Unlines(lines: seq<string>, sep: char): string
    decreases |lines|
  {
    if |lines| == 0 then "" else lines[0] + [sep] + Unlines(lines[1..], sep)
  }

  /** A string without the separator does not split. */
  lemma {:induction false} SplitWithoutSeparator(s: string, sep: char)
    requires sep !in s
    ensures Split(s, sep) == [s]
    decreases |s|
  {
    if |s| > 0 {
      assert sep !in s[1..] by {
        forall i | 0 <= i < |s[1..]| ensures s[1..][i] != sep {
          assert s[1..][i] == s[i + 1];
        }
      }
      SplitWithoutSeparator(s[1..], sep);
      assert [s[0]] + s[1..] == s;
    }
  }

  /** A leading separator opens an empty first part. */
  lemma SplitAtSeparator(rest: string, sep: char)
    ensures Split([sep] + rest, sep) == [""] + Split(rest, sep)
  {
    assert ([sep] + rest)[1..] == rest;
  }

  /** Any other leading character joins the first part. */
  lemma SplitAtOther(c: char, rest: string, sep: char)
    requires c != sep
    ensures Split([c] + rest, sep) == [[c] + Split(rest, sep)[0]] + Split(rest, sep)[1..]
  {
    assert ([c] + rest)[1..] == rest;
  }

  /** Splitting distributes over one separator occurrence. */
  lemma {:induction false} SplitAroundSeparator(a: string, b: string, sep: char)
    ensures Split(a + [sep] + b, sep) == Split(a, sep) + Split(b, sep)
    decreases |a|
  {
    if |a| == 0 {
      assert a + [sep] + b == [sep] + b;
      SplitAtSeparator(b, sep);
    } else {
      var c, t := a[0], a[1..];
      assert a == [c] + t;
      assert a + [sep] + b == [c] + (t + [sep] + b);
      SplitAroundSeparator(t, b, sep);
      SplitAroundStep(c, t, b, sep);
    }
  }

  /** One character in front keeps the distribution over a separator. */
  lemma SplitAroundStep(c: char, t: string, b: string, sep: char)
    requires Split(t + [sep] + b, sep) == Split(t, sep) + Split(b, sep)
    ensures Split([c] + (t + [sep] + b), sep) == Split([c] + t, sep) + Split(b, sep)
  {
    var s := t + [sep] + b;
    if c == sep {
      SplitAtSeparator(s, sep);
      SplitAtSeparator(t, sep);
    } else {
      SplitAtOther(c, s, sep);
      SplitAtOther(c, t, sep);
      ExtendFirstPart([c], Split(t, sep), Split(b, sep), Split([c] + s, sep), Split([c] + t, sep));
    }
  }

  /** Growing the first part commutes with appending further parts. */
  lemma ExtendFirstPart(x: string, ra: seq<string>, rb: seq<string>, p: seq<string>, q: seq<string>)
    requires |ra| >= 1
    requires p == [x + (ra + rb)[0]] + (ra + rb)[1..]
    requires q == [x + ra[0]] + ra[1..]
    ensures p == q + rb
  {
    assert (ra + rb)[0] == ra[0];
    assert (ra + rb)[1..] == ra[1..] + rb;
  }

  /** `sep.join(s.split(sep)) == s`. */
  lemma {:induction false} JoinSplit(s: string, sep: char)
    ensures Join(Split(s, sep), sep) == s
    decreases |s|
  {
    if |s| > 0 {
      JoinSplit(s[1..], sep);
      var rest := Split(s[1..], sep);
      if s[0] == sep {
        assert ([""] + rest)[1..] == rest;
        assert s == [sep] + s[1..];
      } else {
        var parts := [[s[0]] + rest[0]] + rest[1..];
        assert parts[1..] == rest[1..];
        if |rest| == 1 {
          assert s == [s[0]] + rest[0];
        } else {
          assert Join(rest, sep) == rest[0] + [sep] + Join(rest[1..], sep);
          assert s == [s[0]] + s[1..];
        }
      }
    }
  }

  /** `sep.join(parts).split(sep) == parts` when no part holds the separator. */
  lemma {:induction false} SplitJoin(parts: seq<string>, sep: char)
    requires |parts| >= 1
    requires forall i :: 0 <= i < |parts| ==> sep !in parts[i]
    ensures Split(Join(parts, sep), sep) == parts
    decreases |parts|
  {
    SplitWithoutSeparator(parts[0], sep);
    if |parts| > 1 {
      SplitJoin(parts[1..], sep);
      SplitAroundSeparator(parts[0], Join(parts[1..], sep), sep);
      assert parts == [parts[0]] + parts[1..];
    }
  }

  /** Writing one more line in front writes it and its separator first. */
  lemma UnlinesCons(line: string, rest: seq<string>, sep: char)
    ensures Unlines([line] + rest, sep) == line + [sep] + Unlines(rest, sep)
  {
    assert ([line] + rest)[1..] == rest;
  }

  lemma {:induction false} UnlinesAppend(a: seq<string>, b: seq<string>, sep: char)
    ensures Unlines(a + b, sep) == Unlines(a, sep) + Unlines(b, sep)
    decreases |a|
  {
    if |a| > 0 {
      assert (a + b)[1..] == a[1..] + b;
      UnlinesAppend(a[1..], b, sep);
    } else {
      assert a + b == b;
    }
  }

  /** Text written line by line splits back into those lines. */
  lemma {:induction false} SplitUnlines(lines: seq<string>, rest: string, sep: char)
    requires forall i :: 0 <= i < |lines| ==> sep !in lines[i]
    ensures Split(Unlines(lines, sep) + rest, sep) == lines + Split(rest, sep)
    decreases |lines|
  {
    if |lines| == 0 {
      assert Unlines(lines, sep) + rest == rest;
    } else {
      assert lines == [lines[0]] + lines[1..];
      SplitUnlines(lines[1..], rest, sep);
      SplitUnlinesStep(lines[0], lines[1..], rest, sep);
    }
  }

  /** One more line without the separator in front splits off as one more part. */
  lemma SplitUnlinesStep(head: string, more: seq<string>, rest: string, sep: char)
    requires sep !in head
    requires Split(Unlines(more, sep) + rest, sep) == more + Split(rest, sep)
    ensures Split(Unlines([head] + more, sep) + rest, sep) == [head] + more + Split(rest, sep)
  {
    var tail := Unlines(more, sep) + rest;
    UnlinesThenRest(head, more, rest, sep);
    SplitAroundSeparator(head, tail, sep);
    SplitWithoutSeparator(head, sep);
    PrependPart(head, more, Split(rest, sep), Split(head + [sep] + tail, sep));
  }

  /** The text of one more line in front, followed by more text. */
  lemma UnlinesThenRest(head: string, more: seq<string>, rest: string, sep: char)
    ensures Unlines([head] + more, sep) + rest == head + [sep] + (Unlines(more, sep) + rest)
  {
    UnlinesCons(head, more, sep);
    AppendAfterSeparator(head, sep, Unlines(more, sep), rest);
  }

  lemma AppendAfterSeparator(x: string, sep: char, y: string, z: string)
    ensures (x + [sep] + y) + z == x + [sep] + (y + z)
  {
  }

  lemma PrependPart(head: string, more: seq<string>, tail: seq<string>, p: seq<string>)
    requires p == [head] + (more + tail)
    ensures p == [head] + more + tail
  {
  }

  /* ---------------------------------------------------------------- replace */

  /** `s.replace(c, d)` for single characters. */
  function ReplaceChar(s: string, c: char, d: char): (r: string)
    ensures |r| == |s|
    ensures c != d ==> c !in r
    ensures forall i :: 0 <= i < |s| && s[i] != c ==> r[i] == s[i]
    ensures forall i :: 0 <= i < |s| && s[i] == c ==> r[i] == d
  {
    seq(|s|, i requires 0 <= i < |s| => if s[i] == c then d else s[i])
  }

  /** `s.replace(c, rep)`: every occurrence of `c` becomes `rep`. */
  function ReplaceWith(s: string, c: char, rep: string): string
    decreases |s|
  {
    if |s| == 0 then ""
    else (if s[0] == c then rep else [s[0]]) + ReplaceWith(s[1..], c, rep)
  }

  lemma {:induction false} ReplaceWithAbsent(s: string, c: char, rep: string)
    requires c !in s
    ensures ReplaceWith(s, c, rep) == s
    decreases |s|
  {
    if |s| > 0 {
      assert c !in s[1..] by {
        forall i | 0 <= i < |s[1..]| ensures s[1..][i] != c {
          assert s[1..][i] == s[i + 1];
        }
      }
      ReplaceWithAbsent(s[1..], c, rep);
      assert s == [s[0]] + s[1..];
    }
  }

  lemma {:induction false} ReplaceWithAppend(a: string, b: string, c: char, rep: string)
    ensures ReplaceWith(a + b, c, rep) == ReplaceWith(a, c, rep) + ReplaceWith(b, c, rep)
    decreases |a|
  {
    if |a| == 0 {
      assert a + b == b;
    } else {
      assert (a + b)[0] == a[0];
      assert (a + b)[1..] == a[1..] + b;
      ReplaceWithAppend(a[1..], b, c, rep);
    }
  }

  /* ---------------------------------------------------------------- digits */

  predicate IsDigit(c: char) {
    '0' <= c <= '9'
  }

  predicate AllDigits(s: string) {
    forall i :: 0 <= i < |s| ==> IsDigit(s[i])
  }

  function DigitChar(d: nat): (c: char)
    requires d < 10
    ensures IsDigit(c)
  {
    ('0' as int + d) as char
  }

  function DigitValue(c: char): (d: nat)
    requires IsDigit(c)
    ensures d < 10
  {
    c as int - '0' as int
  }

  function Pow10(n: nat): (p: nat)
    ensures p >= 1
  {
    if n == 0 then 1 else 10 * Pow10(n - 1)
  }

  /** `'%0{width}d' % n`: the lowest `width` decimal digits of `n`, zero-padded. */
  function FixedDigits(n: nat, width: nat): (s: string)
    ensures |s| == width && AllDigits(s)
    decreases width
  {
    if width == 0 then "" else FixedDigits(n / 10, width - 1) + [DigitChar(n % 10)]
  }

  /** `int(s)` for a string of decimal digits (empty gives 0). */
  function DigitsValue(s: string): nat
    requires AllDigits(s)
    decreases |s|
  {
    if |s| == 0 then 0 else 10 * DigitsValue(s[..|s| - 1]) + DigitValue(s[|s| - 1])
  }

  /** Reading back a zero-padded rendering gives the number. */
  lemma {:induction false} FixedDigitsValue(n: nat, width: nat)
    requires n < Pow10(width)
    ensures DigitsValue(FixedDigits(n, width)) == n
    decreases width
  {
    if width > 0 {
      FixedDigitsValue(n / 10, width - 1);
      var s := FixedDigits(n, width);
      assert s[..|s| - 1] == FixedDigits(n / 10, width - 1);
      assert DigitValue(DigitChar(n % 10)) == n % 10;
    }
  }

  /** Rendering the value of a digit string at its own width gives the string back. */
  lemma {:induction false} DigitsValueFixed(s: string)
    requires AllDigits(s)
    ensures DigitsValue(s) < Pow10(|s|)
    ensures FixedDigits(DigitsValue(s), |s|) == s
    decreases |s|
  {
    if |s| > 0 {
      var init := s[..|s| - 1];
      var last := s[|s| - 1];
      DigitsValueFixed(init);
      var v := DigitsValue(s);
      assert v == 10 * DigitsValue(init) + DigitValue(last);
      assert v / 10 == DigitsValue(init);
      assert v % 10 == DigitValue(last);
      assert DigitChar(DigitValue(last)) == last;
      assert s == init + [last];
    }
  }

  /** `str(n)` for a natural number: its digits without leading zeros. */
  function NatToDecimal(n: nat): (s: string)
    ensures |s| >= 1 && AllDigits(s)
    ensures n == 0 ==> s == "0"
    ensures n > 0 ==> s[0] != '0'
    decreases n
  {
    if n < 10 then [DigitChar(n)]
    else
      var init := NatToDecimal(n / 10);
      var s := init + [DigitChar(n % 10)];
      assert s[0] == init[0];
      s
  }

  /** The digits of `str(n)` read back as `n`. */
  lemma {:induction false} NatToDecimalValue(n: nat)
    ensures DigitsValue(NatToDecimal(n)) == n
    decreases n
  {
    if n >= 10 {
      NatToDecimalValue(n / 10);
      var init := NatToDecimal(n / 10);
      var s := init + [DigitChar(n % 10)];
      assert s[..|s| - 1] == init;
    }
  }

  /** `str(n)` for any integer: a minus sign, then the digits of the magnitude. */
  function IntToDecimal(n: int): (s: string)
    ensures |s| >= 1
    ensures n >= 0 ==> s == NatToDecimal(n)
    ensures n < 0 ==> s[0] == '-' && s[1..] == NatToDecimal(-n)
  {
    if n < 0 then
      var digits := NatToDecimal(-n);
      assert ("-" + digits)[1..] == digits;
      "-" + digits
    else NatToDecimal(n)
  }

  /** Read back, `str(n)` gives the sign and the magnitude of `n`. */
  lemma IntToDecimalValue(n: int)
    ensures n >= 0 ==> AllDigits(IntToDecimal(n)) && DigitsValue(IntToDecimal(n)) == n
    ensures n < 0 ==> IntToDecimal(n)[0] == '-'
    ensures n < 0 ==> AllDigits(IntToDecimal(n)[1..]) && DigitsValue(IntToDecimal(n)[1..]) == -n
  {
    NatToDecimalValue(if n < 0 then -n else n);
  }

  lemma DigitsHaveNo(s: string, c: char)
    requires AllDigits(s)
    requires !IsDigit(c)
    ensures c !in s
  {
  }

  lemma IntToDecimalHasNo(n: int, c: char)
    requires !IsDigit(c) && c != '-'
    ensures c !in IntToDecimal(n)
  {
    var s := IntToDecimal(n);
    if n < 0 {
      assert s == [s[0]] + s[1..];
      DigitsHaveNo(s[1..], c);
    }
  }

  /* ---------------------------------------------------------------- paths */

  /** `os.path.join(a, b)` on POSIX: an absolute `b` replaces `a`; otherwise one
      `/` is inserted unless `a` is empty or already ends with one. */
  function PathJoin(a: string, b: string): (p: string)
    ensures |b| > 0 && b[0] == '/' ==> p == b
    ensures (|b| == 0 || b[0] != '/') && |a| > 0 && a[|a| - 1] != '/' ==> p == a + "/" + b
    ensures (|b| == 0 || b[0] != '/') && (|a| == 0 || a[|a| - 1] == '/') ==> p == a + b
  {
    if |b| > 0 && b[0] == '/' then b
    else if |a| == 0 || a[|a| - 1] == '/' then a + b
    else a + "/" + b
  }
}
