// Size labels (formatSize, formatTotalSize) and the generation timestamp
// (padTwo, formatTimestamp) of js/app.js.
//
// Sizes are naturals in tenths of a megabyte, so mb.toFixed(1) prints the
// exact value. The model takes (mb / 1000).toFixed(1) as the exact quotient
// rounded to a tenth of a gigabyte, ties upward; it does not model the double
// quotient, which can fall just below a decimal tie and then round down.

module Format {
  import opened Options
  import opened Text
  import opened Catalog

  /** x.toFixed(1) for x == t / 10. */
  function Fixed1(t: nat): string {
    NatToString(t / 10) + "." + [DigitChar(t % 10)]
  }

  /** Reads back a "<digits>.<digit>" string as tenths. */
  function ParseFixed1(s: string): Option<nat> {
    if |s| >= 3 && s[|s| - 2] == '.' && AllDigits(s[..|s| - 2]) && IsDigitChar(s[|s| - 1])
    then Some(DigitsValue(s[..|s| - 2]) * 10 + DigitValue(s[|s| - 1]))
    else None
  }

  lemma Fixed1RoundTrip(t: nat)
    ensures ParseFixed1(Fixed1(t)) == Some(t)
  {
    var s := Fixed1(t);
    NatToStringValue(t / 10);
    assert s[..|s| - 2] == NatToString(t / 10);
    assert DigitValue(DigitChar(t % 10)) == t % 10;
  }

  /** The gigabyte figure of a GB label, for mb == t / 10: the exact
      quotient t / 10000 rounded to the nearest tenth, ties upward. */
  function GigabyteTenths(t: Tenths): (g: nat)
    ensures 1000 * g <= t + 500 < 1000 * g + 1000
  {
    (t + 500) / 1000
  }

  /** formatSize: per-row display. */
  function FormatSize(t: Tenths): string {
    if t >= 10000 then Fixed1(GigabyteTenths(t)) + " GB"
    else if t == 0 then "<1 MB"
    else Fixed1(t) + " MB"
  }

  /** formatTotalSize: aggregate display, and the TOTAL_SIZE label of the
      generated script; no "<1 MB" case. */
  function FormatTotalSize(t: Tenths): string {
    if t >= 10000 then Fixed1(GigabyteTenths(t)) + " GB" else Fixed1(t) + " MB"
  }

  /** What a total label says: the unit is GB exactly from 1000 MB up; an MB
      label shows the size exactly, a GB label to the nearest tenth. */
  lemma TotalSizeLabel(t: Tenths)
    ensures var s := FormatTotalSize(t);
      && |s| >= 6
      && (s[|s| - 3..] == " GB" <==> t >= 10000)
      && (s[|s| - 3..] == " MB" <==> t < 10000)
      && ParseFixed1(s[..|s| - 3]).Some?
      && (t < 10000 ==> ParseFixed1(s[..|s| - 3]).value == t)
      && (t >= 10000 ==> 1000 * ParseFixed1(s[..|s| - 3]).value - 500 <= t < 1000 * ParseFixed1(s[..|s| - 3]).value + 500)
  {
    var s := FormatTotalSize(t);
    var n := if t >= 10000 then GigabyteTenths(t) else t;
    var num := Fixed1(n);
    assert s == num + (if t >= 10000 then " GB" else " MB");
    assert s[..|s| - 3] == num;
    Fixed1RoundTrip(n);
  }

  /** The per-row label differs from the total label only at zero. */
  lemma RowLabelVersusTotal(t: Tenths)
    ensures FormatSize(t) == "<1 MB" <==> t == 0
    ensures FormatSize(t) == FormatTotalSize(t) <==> t != 0
  {
    if t != 0 {
      TotalSizeLabel(t);
      var s := FormatSize(t);
      assert "<1 MB"[0] == '<';
      assert IsDigitChar(s[0]) by {
        var n := if t >= 10000 then GigabyteTenths(t) else t;
        assert s[0] == NatToString(n / 10)[0];
      }
    } else {
      assert FormatTotalSize(0) == Fixed1(0) + " MB";
      assert FormatTotalSize(0)[0] == '0';
    }
  }

  /** The sample values: 999 MB, 1000 MB, a zero-size row and a zero total. */
  lemma SizeLabelExamples()
    ensures FormatTotalSize(9990) == "999.0 MB"
    ensures FormatSize(9990) == "999.0 MB"
    ensures FormatTotalSize(10000) == "1.0 GB"
    ensures FormatSize(10000) == "1.0 GB"
    ensures FormatSize(0) == "<1 MB"
    ensures FormatTotalSize(0) == "0.0 MB"
  {
    assert NatToString(999) == NatToString(99) + "9";
    assert NatToString(99) == NatToString(9) + "9";
    assert GigabyteTenths(10000) == 10;
    assert NatToString(1) == "1";
    assert NatToString(0) == "0";
  }

  // ---------------------------------------------------------------------------
  // Timestamp
  // ---------------------------------------------------------------------------

  /** n copies of c. */
  function Repeat(c: char, n: nat): (r: string)
    ensures |r| == n
    ensures forall k :: 0 <= k < n ==> r[k] == c
  {
    if n == 0 then [] else Repeat(c, n - 1) + [c]
  }

  /** s.padStart(width, fill) for a one-character fill. */
  function PadStart(s: string, width: nat, fill: char): (r: string)
    ensures |r| == if |s| >= width then |s| else width
    ensures r[|r| - |s|..] == s
    ensures forall k :: 0 <= k < |r| - |s| ==> r[k] == fill
  {
    if |s| >= width then s else Repeat(fill, width - |s|) + s
  }

  /** padTwo(n) == String(n).padStart(2, "0"). */
  function PadTwo(n: nat): (s: string)
    ensures AllDigits(s)
    ensures n < 100 ==> |s| == 2
  {
    var d := NatToString(n);
    NumDigitsSmall(n);
    var r := PadStart(d, 2, '0');
    assert forall k :: |r| - |d| <= k < |r| ==> r[k] == d[k - (|r| - |d|)];
    r
  }

  /** padTwo(n) reads back as n; it is two digits long below 100 and
      String(n) itself from 100 up. */
  lemma PadTwoValue(n: nat)
    ensures DigitsValue(PadTwo(n)) == n
    ensures |PadTwo(n)| == if n < 100 then 2 else NumDigits(n)
  {
    var d := NatToString(n);
    NatToStringValue(n);
    NumDigitsSmall(n);
    if n < 10 {
      PadOneDigit(d);
    } else {
      assert PadTwo(n) == d;
      if n >= 100 {
        MoreDigits(n);
      }
    }
  }

  lemma PadOneDigit(d: string)
    requires |d| == 1 && AllDigits(d)
    ensures PadStart(d, 2, '0') == ['0', d[0]]
    ensures DigitsValue(['0', d[0]]) == DigitsValue(d)
  {
    assert DigitsValue(['0', d[0]]) == DigitsValue(['0']) * 10 + DigitValue(d[0]);
    assert ['0', d[0]][..1] == ['0'];
    assert d[..0] == [];
  }

  lemma MoreDigits(n: nat)
    requires n >= 100
    ensures NumDigits(n) > 2
  {
    NumDigitsSmall(n / 10);
    if n / 10 >= 100 {
      assert NumDigits(n / 10) == NumDigits(n / 100) + 1;
    }
  }

  /** The Date getters formatTimestamp reads: getFullYear, getMonth (0-based),
      getDate, getHours, getMinutes, getSeconds, in local time. */
  datatype LocalTime = LocalTime(year: int, month: nat, date: nat, hours: nat, minutes: nat, seconds: nat)

  predicate InRange(t: LocalTime) {
    1000 <= t.year <= 9999 && t.month < 12 && 1 <= t.date <= 31 && t.hours < 24 && t.minutes < 60 && t.seconds < 60
  }

  /** formatTimestamp: YYYYMMDD_HHMMSS (the month printed 1-based). */
  function FormatTimestamp(t: LocalTime): string {
    IntToString(t.year) + PadTwo(t.month + 1) + PadTwo(t.date) + "_"
      + PadTwo(t.hours) + PadTwo(t.minutes) + PadTwo(t.seconds)
  }

  /** The value of the two digits of s at i and i + 1. */
  function Digits2(s: string, i: nat): nat
    requires i + 1 < |s| && IsDigitChar(s[i]) && IsDigitChar(s[i + 1])
  {
    10 * DigitValue(s[i]) + DigitValue(s[i + 1])
  }

  predicate StampChar(c: char) {
    c == '_' || IsDigitChar(c)
  }

  predicate StampChars(s: string) {
    forall k :: 0 <= k < |s| ==> StampChar(s[k])
  }

  lemma StampCharsAppend(a: string, b: string)
    requires StampChars(a) && StampChars(b)
    ensures StampChars(a + b)
  {
  }

  /** For a year from 0 on, a timestamp holds only digits and '_'. */
  lemma TimestampCharset(t: LocalTime)
    requires t.year >= 0
    ensures StampChars(FormatTimestamp(t))
  {
    StampCharsOfFields(IntToString(t.year), PadTwo(t.month + 1), PadTwo(t.date),
                       PadTwo(t.hours), PadTwo(t.minutes), PadTwo(t.seconds));
  }

  lemma StampCharsOfFields(y: string, mo: string, d: string, h: string, mi: string, se: string)
    requires AllDigits(y) && AllDigits(mo) && AllDigits(d) && AllDigits(h) && AllDigits(mi) && AllDigits(se)
    ensures StampChars(y + mo + d + "_" + h + mi + se)
  {
    assert StampChars("_");
    StampCharsAppend(y, mo);
    StampCharsAppend(y + mo, d);
    StampCharsAppend(y + mo + d, "_");
    StampCharsAppend(y + mo + d + "_", h);
    StampCharsAppend(y + mo + d + "_" + h, mi);
    StampCharsAppend(y + mo + d + "_" + h + mi, se);
  }

  /** Reads the six fields back out of a YYYYMMDD_HHMMSS string. */
  function ParseTimestamp(s: string): Option<LocalTime> {
    if |s| == 15 && s[8] == '_' && (forall k | 0 <= k < 15 && k != 8 :: IsDigitChar(s[k])) && Digits2(s, 4) >= 1 then
      Some(LocalTime(100 * Digits2(s, 0) + Digits2(s, 2), Digits2(s, 4) - 1, Digits2(s, 6),
                     Digits2(s, 9), Digits2(s, 11), Digits2(s, 13)))
    else None
  }

  /** A four-digit-year timestamp has the fixed 15-character layout and
      reads back as the time it was made from. */
  lemma TimestampRoundTrip(t: LocalTime)
    requires InRange(t)
    ensures |FormatTimestamp(t)| == 15
    ensures ParseTimestamp(FormatTimestamp(t)) == Some(t)
  {
    var y := IntToString(t.year);
    YearDigits(t.year);
    var mo, d, h, mi, se := PadTwo(t.month + 1), PadTwo(t.date), PadTwo(t.hours), PadTwo(t.minutes), PadTwo(t.seconds);
    PadTwoValue(t.month + 1);
    PadTwoValue(t.date);
    PadTwoValue(t.hours);
    PadTwoValue(t.minutes);
    PadTwoValue(t.seconds);
    ParseFields(t, FormatTimestamp(t), y, mo, d, h, mi, se);
  }

  /** A four-digit year prints as four digits that read back as the year. */
  lemma YearDigits(year: int)
    requires 1000 <= year <= 9999
    ensures |IntToString(year)| == 4 && DigitsValue(IntToString(year)) == year
  {
    NatToStringValue(year);
    NumDigitsSmall(year);
  }

  lemma {:induction false} ParseFields(t: LocalTime, s: string, y: string, mo: string, d: string, h: string, mi: string, se: string)
    requires |y| == 4 && |mo| == 2 && |d| == 2 && |h| == 2 && |mi| == 2 && |se| == 2
    requires AllDigits(y) && AllDigits(mo) && AllDigits(d) && AllDigits(h) && AllDigits(mi) && AllDigits(se)
    requires DigitsValue(y) == t.year && DigitsValue(mo) == t.month + 1 && DigitsValue(d) == t.date
    requires DigitsValue(h) == t.hours && DigitsValue(mi) == t.minutes && DigitsValue(se) == t.seconds
    requires s == y + mo + d + "_" + h + mi + se
    ensures |s| == 15
    ensures ParseTimestamp(s) == Some(t)
  {
    TimestampChars(s, y, mo, d, h, mi, se);
    ParseChars(s, y, mo, d, h, mi, se);
  }

  lemma {:induction false} ParseChars(s: string, y: string, mo: string, d: string, h: string, mi: string, se: string)
    requires |y| == 4 && |mo| == 2 && |d| == 2 && |h| == 2 && |mi| == 2 && |se| == 2
    requires AllDigits(y) && AllDigits(mo) && AllDigits(d) && AllDigits(h) && AllDigits(mi) && AllDigits(se)
    requires DigitsValue(mo) >= 1
    requires |s| == 15 && s[8] == '_'
    requires s[0] == y[0] && s[1] == y[1] && s[2] == y[2] && s[3] == y[3]
    requires s[4] == mo[0] && s[5] == mo[1] && s[6] == d[0] && s[7] == d[1]
    requires s[9] == h[0] && s[10] == h[1] && s[11] == mi[0] && s[12] == mi[1]
    requires s[13] == se[0] && s[14] == se[1]
    ensures ParseTimestamp(s) ==
            Some(LocalTime(DigitsValue(y), DigitsValue(mo) - 1, DigitsValue(d), DigitsValue(h), DigitsValue(mi), DigitsValue(se)))
  {
    FourDigits(y);
    TwoDigits(mo);
    TwoDigits(d);
    TwoDigits(h);
    TwoDigits(mi);
    TwoDigits(se);
    assert forall k | 0 <= k < 15 && k != 8 :: IsDigitChar(s[k]);
  }

  lemma {:induction false} TimestampChars(s: string, y: string, mo: string, d: string, h: string, mi: string, se: string)
    requires |y| == 4 && |mo| == 2 && |d| == 2 && |h| == 2 && |mi| == 2 && |se| == 2
    requires s == y + mo + d + "_" + h + mi + se
    ensures |s| == 15 && s[8] == '_'
    ensures s[0] == y[0] && s[1] == y[1] && s[2] == y[2] && s[3] == y[3]
    ensures s[4] == mo[0] && s[5] == mo[1] && s[6] == d[0] && s[7] == d[1]
    ensures s[9] == h[0] && s[10] == h[1] && s[11] == mi[0] && s[12] == mi[1]
    ensures s[13] == se[0] && s[14] == se[1]
  {
  }

  lemma FourDigits(x: string)
    requires |x| == 4 && AllDigits(x)
    ensures DigitsValue(x) == 100 * (10 * DigitValue(x[0]) + DigitValue(x[1])) + 10 * DigitValue(x[2]) + DigitValue(x[3])
  {
    assert x == x[..2] + x[2..];
    TwoDigits(x[..2]);
    DigitsValueAppend(x[..2], x[2..]);
  }

  lemma TwoDigits(x: string)
    requires |x| == 2 && AllDigits(x)
    ensures DigitsValue(x) == 10 * DigitValue(x[0]) + DigitValue(x[1])
  {
    assert x[..1][..0] == [];
    assert DigitsValue(x[..1]) == DigitValue(x[0]);
  }

  lemma DigitsValueAppend(a: string, b: string)
    requires AllDigits(a) && AllDigits(b) && |b| == 2
    ensures AllDigits(a + b) && DigitsValue(a + b) == 100 * DigitsValue(a) + DigitsValue(b)
  {
    var ab := a + b;
    assert ab[..|ab| - 1] == a + b[..1];
    assert (a + b[..1])[..|ab| - 2] == a;
    TwoDigits(b);
  }

}
