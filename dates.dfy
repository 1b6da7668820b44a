/** getTodayDateString: the local calendar date as `YYYY-MM-DD`. The clock is outside the
    model: the year, the zero-based month (`getMonth()`) and the day are inputs. */
module Dates {
  import opened Builtins

  /** `${yyyy}-${mm}-${dd}` with `yyyy = getFullYear()` unpadded and `mm`, `dd` padded to two
      digits with "0". */
  function FormatDate(year: nat, monthIndex: nat, day: nat): string
    requires monthIndex < 12 && 1 <= day <= 31
  {
    NatToString(year) + "-" + PadStart(NatToString(monthIndex + 1), 2) + "-" + PadStart(NatToString(day), 2)
  }

  /** A four-digit year renders as four digits. */
  lemma FourDigitYear(year: nat)
    requires 1000 <= year <= 9999
    ensures |NatToString(year)| == 4
  {
    var a, b, c := year / 10, year / 100, year / 1000;
    assert a / 10 == b && b / 10 == c;
    assert |NatToString(c)| == 1;
    assert |NatToString(b)| == 2;
    assert |NatToString(a)| == 3;
  }

  /** A number below 100, padded to two digits, renders as exactly two digits with value n. */
  lemma TwoDigits(n: nat)
    requires 1 <= n < 100
    ensures var p := PadStart(NatToString(n), 2);
            |p| == 2 && AllDigits(p) && ParseDigits(p) == n
  {
    var s := NatToString(n);
    var p := PadStart(s, 2);
    ParseNatToString(n);
    assert |NatToString(n / 10)| == 1 by {
      if n >= 10 { assert n / 10 < 10; }
    }
    if |s| == 1 {
      assert p == "0" + s;
      assert p[..1] == "0";
    } else {
      assert p == s;
    }
  }

  /** Where the parts sit in `y-m-d` for a four-character `y` and two-character `m`, `d`. */
  lemma DashedParts(y: string, m: string, d: string)
    requires |y| == 4 && |m| == 2 && |d| == 2
    ensures var r := y + "-" + m + "-" + d;
            && |r| == 10 && r[4] == '-' && r[7] == '-'
            && r[..4] == y && r[5..7] == m && r[8..] == d
  {
  }

  /** The parts of a formatted date with a four-digit year: digits at fixed positions, dashes
      between them, and each part reading back as the number it came from. */
  lemma FormatDateParts(year: nat, monthIndex: nat, day: nat)
    requires 1000 <= year <= 9999 && monthIndex < 12 && 1 <= day <= 31
    ensures var r := FormatDate(year, monthIndex, day);
            && |r| == 10 && r[4] == '-' && r[7] == '-'
            && AllDigits(r[..4]) && AllDigits(r[5..7]) && AllDigits(r[8..])
            && ParseDigits(r[..4]) == year
            && ParseDigits(r[5..7]) == monthIndex + 1
            && ParseDigits(r[8..]) == day
  {
    FourDigitYear(year);
    TwoDigits(monthIndex + 1);
    TwoDigits(day);
    ParseNatToString(year);
    DashedParts(NatToString(year), PadStart(NatToString(monthIndex + 1), 2), PadStart(NatToString(day), 2));
  }

  /** A date string determines the date: formatting is injective on four-digit years. */
  lemma FormatDateInjective(y1: nat, m1: nat, d1: nat, y2: nat, m2: nat, d2: nat)
    requires 1000 <= y1 <= 9999 && m1 < 12 && 1 <= d1 <= 31
    requires 1000 <= y2 <= 9999 && m2 < 12 && 1 <= d2 <= 31
    requires FormatDate(y1, m1, d1) == FormatDate(y2, m2, d2)
    ensures y1 == y2 && m1 == m2 && d1 == d2
  {
    FormatDateParts(y1, m1, d1);
    FormatDateParts(y2, m2, d2);
  }

  // ---------------------------------------------------------------------------
  // Formatted dates compare as the dates do

  /** Comparing two concatenations whose first parts have equal length compares the first
      parts, and the second parts only when the first parts agree. */
  lemma {:induction false} LexCompareConcat(s1: string, s2: string, t1: string, t2: string)
    requires |s1| == |t1|
    ensures LexCompare(s1 + s2, t1 + t2) == if s1 != t1 then LexCompare(s1, t1) else LexCompare(s2, t2)
  {
    if s1 != [] {
      assert (s1 + s2)[0] == s1[0] && (t1 + t2)[0] == t1[0];
      if s1[0] == t1[0] {
        assert (s1 + s2)[1..] == s1[1..] + s2;
        assert (t1 + t2)[1..] == t1[1..] + t2;
        LexCompareConcat(s1[1..], s2, t1[1..], t2);
        assert s1 == [s1[0]] + s1[1..] && t1 == [t1[0]] + t1[1..];
      }
    } else {
      assert s1 + s2 == s2 && t1 + t2 == t2;
    }
  }

  /** Digit strings of equal length compare as the numbers they spell. */
  lemma {:induction false} DigitOrder(s: string, t: string)
    requires |s| == |t| && AllDigits(s) && AllDigits(t)
    ensures LexCompare(s, t) == Sign(ParseDigits(s) - ParseDigits(t))
  {
    if s != [] {
      var n := |s|;
      var s', t' := s[..n - 1], t[..n - 1];
      assert s == s' + [s[n - 1]] && t == t' + [t[n - 1]];
      LexCompareConcat(s', [s[n - 1]], t', [t[n - 1]]);
      DigitOrder(s', t');
      var a, b := ParseDigits(s'), ParseDigits(t');
      if s' == t' {
        assert ParseDigits(s) - ParseDigits(t) == DigitValue(s[n - 1]) - DigitValue(t[n - 1]);
      } else if a < b {
        assert ParseDigits(s) <= a * 10 + 9 < (a + 1) * 10 <= b * 10 <= ParseDigits(t);
      } else {
        assert ParseDigits(t) <= b * 10 + 9 < (b + 1) * 10 <= a * 10 <= ParseDigits(s);
      }
    }
  }

  /** The chronological order of two dates: -1, 0 or 1. */
  function DateOrder(y1: int, m1: int, d1: int, y2: int, m2: int, d2: int): int {
    if y1 != y2 then Sign(y1 - y2) else if m1 != m2 then Sign(m1 - m2) else Sign(d1 - d2)
  }

  /** `y-m-d` strings with parts of fixed widths compare part by part. */
  lemma DashedOrder(y1: string, m1: string, d1: string, y2: string, m2: string, d2: string)
    requires |y1| == |y2| && |m1| == |m2|
    ensures LexCompare(y1 + "-" + m1 + "-" + d1, y2 + "-" + m2 + "-" + d2)
            == if y1 != y2 then LexCompare(y1, y2)
               else if m1 != m2 then LexCompare(m1, m2)
               else LexCompare(d1, d2)
  {
    assert y1 + "-" + m1 + "-" + d1 == y1 + ("-" + (m1 + ("-" + d1)));
    assert y2 + "-" + m2 + "-" + d2 == y2 + ("-" + (m2 + ("-" + d2)));
    LexCompareConcat(y1, "-" + (m1 + ("-" + d1)), y2, "-" + (m2 + ("-" + d2)));
    LexCompareConcat("-", m1 + ("-" + d1), "-", m2 + ("-" + d2));
    LexCompareConcat(m1, "-" + d1, m2, "-" + d2);
    LexCompareConcat("-", d1, "-", d2);
  }

  /** Four-digit years compare as strings the way they compare as numbers. */
  lemma YearPartOrder(y1: nat, y2: nat)
    requires 1000 <= y1 <= 9999 && 1000 <= y2 <= 9999
    ensures |NatToString(y1)| == |NatToString(y2)|
    ensures LexCompare(NatToString(y1), NatToString(y2)) == Sign(y1 - y2)
  {
    FourDigitYear(y1);
    FourDigitYear(y2);
    ParseNatToString(y1);
    ParseNatToString(y2);
    DigitOrder(NatToString(y1), NatToString(y2));
  }

  /** Padded two-digit numbers compare as strings the way they compare as numbers. */
  lemma TwoDigitPartOrder(a: nat, b: nat)
    requires 1 <= a < 100 && 1 <= b < 100
    ensures |PadStart(NatToString(a), 2)| == |PadStart(NatToString(b), 2)|
    ensures LexCompare(PadStart(NatToString(a), 2), PadStart(NatToString(b), 2)) == Sign(a - b)
  {
    TwoDigits(a);
    TwoDigits(b);
    DigitOrder(PadStart(NatToString(a), 2), PadStart(NatToString(b), 2));
  }

  /** For four-digit years, comparing formatted dates as strings (what the sort comparator
      does with due dates) gives their chronological order. */
  lemma FormattedDatesCompareChronologically(y1: nat, m1: nat, d1: nat, y2: nat, m2: nat, d2: nat)
    requires 1000 <= y1 <= 9999 && m1 < 12 && 1 <= d1 <= 31
    requires 1000 <= y2 <= 9999 && m2 < 12 && 1 <= d2 <= 31
    ensures LexCompare(FormatDate(y1, m1, d1), FormatDate(y2, m2, d2)) == DateOrder(y1, m1 + 1, d1, y2, m2 + 1, d2)
  {
    var ys1, ys2 := NatToString(y1), NatToString(y2);
    var ms1, ms2 := PadStart(NatToString(m1 + 1), 2), PadStart(NatToString(m2 + 1), 2);
    var ds1, ds2 := PadStart(NatToString(d1), 2), PadStart(NatToString(d2), 2);
    YearPartOrder(y1, y2);
    TwoDigitPartOrder(m1 + 1, m2 + 1);
    TwoDigitPartOrder(d1, d2);
    DashedOrder(ys1, ms1, ds1, ys2, ms2, ds2);
    PartOrder(ys1, ys2, y1, y2);
    PartOrder(ms1, ms2, m1 + 1, m2 + 1);
  }

  /** A part's string comparison and its numeric comparison agree on equality too. */
  lemma PartOrder(s1: string, s2: string, v1: int, v2: int)
    requires LexCompare(s1, s2) == Sign(v1 - v2)
    ensures s1 != s2 <==> v1 != v2
  {
  }
}
