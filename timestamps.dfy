/** Calendar timestamps as integer components, PHP's `Y-m-d H:i:s` format used
    by the export, and the `Y-m-d_His` stamp used in export file names. */
module Timestamps {
  import opened Text
  import opened Values

  datatype DateTime = DateTime(year: nat, month: nat, day: nat, hour: nat, minute: nat, second: nat)

  predicate IsLeapYear(y: nat) {
    (y % 4 == 0 && y % 100 != 0) || y % 400 == 0
  }

  function DaysInMonth(y: nat, m: nat): (n: nat)
    requires 1 <= m <= 12
    ensures 28 <= n <= 31
  {
    if m == 2 then (if IsLeapYear(y) then 29 else 28)
    else if m == 4 || m == 6 || m == 9 || m == 11 then 30
    else 31
  }

  /** A real calendar moment whose year has four digits. */
  predicate Valid(t: DateTime) {
    && 1000 <= t.year <= 9999
    && 1 <= t.month <= 12
    && 1 <= t.day <= DaysInMonth(t.year, t.month)
    && t.hour < 24 && t.minute < 60 && t.second < 60
  }

  /** `a` is strictly earlier than `b`. */
  predicate Earlier(a: DateTime, b: DateTime) {
    if a.year != b.year then a.year < b.year
    else if a.month != b.month then a.month < b.month
    else if a.day != b.day then a.day < b.day
    else if a.hour != b.hour then a.hour < b.hour
    else if a.minute != b.minute then a.minute < b.minute
    else a.second < b.second
  }

  /** `Earlier` is a strict total order. */
  lemma EarlierIsStrictTotalOrder(a: DateTime, b: DateTime, c: DateTime)
    ensures !Earlier(a, a)
    ensures Earlier(a, b) && Earlier(b, c) ==> Earlier(a, c)
    ensures a != b ==> Earlier(a, b) || Earlier(b, a)
    ensures !(Earlier(a, b) && Earlier(b, a))
  {
  }

  /** The four year digits and the two-digit month, day, hour, minute and second. */
  function YearText(t: DateTime): string requires Valid(t) { PadLeft(t.year, 4) }
  function MonthText(t: DateTime): string requires Valid(t) { PadLeft(t.month, 2) }
  function DayText(t: DateTime): string requires Valid(t) { PadLeft(t.day, 2) }
  function HourText(t: DateTime): string requires Valid(t) { PadLeft(t.hour, 2) }
  function MinuteText(t: DateTime): string requires Valid(t) { PadLeft(t.minute, 2) }
  function SecondText(t: DateTime): string requires Valid(t) { PadLeft(t.second, 2) }

  /** `Y-m-d`: the date part of both formats. */
  function DateText(t: DateTime): (s: string)
    requires Valid(t)
    ensures |s| == 10 && s[4] == '-' && s[7] == '-'
  {
    YearText(t) + "-" + MonthText(t) + "-" + DayText(t)
  }

  /** `H:i:s`: the time of day in the export's format. */
  function ClockText(t: DateTime): (s: string)
    requires Valid(t)
    ensures |s| == 8 && s[2] == ':' && s[5] == ':'
  {
    HourText(t) + ":" + MinuteText(t) + ":" + SecondText(t)
  }

  /** `$t->format('Y-m-d H:i:s')`. */
  function FormatDateTime(t: DateTime): (s: string)
    requires Valid(t)
    ensures |s| == 19
    ensures s[4] == '-' && s[7] == '-' && s[10] == ' ' && s[13] == ':' && s[16] == ':'
  {
    DateText(t) + " " + ClockText(t)
  }

  /** The numbers of a `Y-m-d` text. */
  function ParseDate(d: string): (r: Option<(nat, nat, nat)>)
    ensures r.Some? ==> |d| == 10 && d[4] == '-' && d[7] == '-'
  {
    if |d| != 10 || d[4] != '-' || d[7] != '-' then None
    else if !AllDigits(d[0..4]) || !AllDigits(d[5..7]) || !AllDigits(d[8..10]) then None
    else Some((DigitsValue(d[0..4]), DigitsValue(d[5..7]), DigitsValue(d[8..10])))
  }

  /** The numbers of an `H:i:s` text. */
  function ParseClock(c: string): (r: Option<(nat, nat, nat)>)
    ensures r.Some? ==> |c| == 8 && c[2] == ':' && c[5] == ':'
  {
    if |c| != 8 || c[2] != ':' || c[5] != ':' then None
    else if !AllDigits(c[0..2]) || !AllDigits(c[3..5]) || !AllDigits(c[6..8]) then None
    else Some((DigitsValue(c[0..2]), DigitsValue(c[3..5]), DigitsValue(c[6..8])))
  }

  /** Reads a `Y-m-d H:i:s` string back into its components, when it is one and
      names a valid moment. */
  function ParseDateTime(s: string): (r: Option<DateTime>)
    ensures r.Some? ==> Valid(r.value) && |s| == 19 && s[10] == ' '
  {
    if |s| != 19 || s[10] != ' ' then None
    else match (ParseDate(s[..10]), ParseClock(s[11..]))
      case (Some(d), Some(c)) =>
        var t := DateTime(d.0, d.1, d.2, c.0, c.1, c.2);
        if Valid(t) then Some(t) else None
      case _ => None
  }

  /** The date part reads back as the date. */
  lemma DateRoundTrip(t: DateTime)
    requires Valid(t)
    ensures ParseDate(DateText(t)) == Some((t.year, t.month, t.day))
  {
    var s := DateText(t);
    assert s[0..4] == YearText(t) && s[5..7] == MonthText(t) && s[8..10] == DayText(t);
    PadLeftRoundTrip(t.year, 4);
    PadLeftRoundTrip(t.month, 2);
    PadLeftRoundTrip(t.day, 2);
  }

  /** The time part reads back as the time of day. */
  lemma ClockRoundTrip(t: DateTime)
    requires Valid(t)
    ensures ParseClock(ClockText(t)) == Some((t.hour, t.minute, t.second))
  {
    var s := ClockText(t);
    assert s[0..2] == HourText(t) && s[3..5] == MinuteText(t) && s[6..8] == SecondText(t);
    PadLeftRoundTrip(t.hour, 2);
    PadLeftRoundTrip(t.minute, 2);
    PadLeftRoundTrip(t.second, 2);
  }

  /** A `Y-m-d` text is the date part of the moment it denotes. */
  lemma DateCanonical(d: string, t: DateTime)
    requires Valid(t) && ParseDate(d) == Some((t.year, t.month, t.day))
    ensures DateText(t) == d
  {
    PadLeftOfDigits(d[0..4]);
    PadLeftOfDigits(d[5..7]);
    PadLeftOfDigits(d[8..10]);
    assert d == d[0..4] + "-" + d[5..7] + "-" + d[8..10];
  }

  /** An `H:i:s` text is the time part of the moment it denotes. */
  lemma ClockCanonical(c: string, t: DateTime)
    requires Valid(t) && ParseClock(c) == Some((t.hour, t.minute, t.second))
    ensures ClockText(t) == c
  {
    PadLeftOfDigits(c[0..2]);
    PadLeftOfDigits(c[3..5]);
    PadLeftOfDigits(c[6..8]);
    assert c == c[0..2] + ":" + c[3..5] + ":" + c[6..8];
  }

  /** Formatting then parsing gives the moment back. */
  lemma FormatThenParse(t: DateTime)
    requires Valid(t)
    ensures ParseDateTime(FormatDateTime(t)) == Some(t)
  {
    var s := FormatDateTime(t);
    assert s[..10] == DateText(t) && s[11..] == ClockText(t);
    DateRoundTrip(t);
    ClockRoundTrip(t);
  }

  /** Parsing then formatting gives the string back: the format is canonical. */
  lemma ParseThenFormat(s: string)
    requires ParseDateTime(s).Some?
    ensures FormatDateTime(ParseDateTime(s).value) == s
  {
    var t := ParseDateTime(s).value;
    DateCanonical(s[..10], t);
    ClockCanonical(s[11..], t);
    assert s == s[..10] + " " + s[11..];
  }

  /** `date('Y-m-d_His')`. */
  function FileStamp(t: DateTime): (s: string)
    requires Valid(t)
    ensures |s| == 17
    ensures s[4] == '-' && s[7] == '-' && s[10] == '_'
  {
    DateText(t) + "_" + HourText(t) + MinuteText(t) + SecondText(t)
  }

  /** The date part of the stamp reads back as the date. */
  lemma FileStampDate(t: DateTime)
    requires Valid(t)
    ensures ParseDate(FileStamp(t)[..10]) == Some((t.year, t.month, t.day))
  {
    assert FileStamp(t)[..10] == DateText(t);
    DateRoundTrip(t);
  }

  /** The time part of the stamp reads back as the time of day. */
  lemma FileStampTime(t: DateTime)
    requires Valid(t)
    ensures DigitsValue(FileStamp(t)[11..13]) == t.hour
    ensures DigitsValue(FileStamp(t)[13..15]) == t.minute
    ensures DigitsValue(FileStamp(t)[15..17]) == t.second
  {
    var s := FileStamp(t);
    assert s[11..13] == HourText(t) && s[13..15] == MinuteText(t) && s[15..17] == SecondText(t);
    PadLeftRoundTrip(t.hour, 2);
    PadLeftRoundTrip(t.minute, 2);
    PadLeftRoundTrip(t.second, 2);
  }

  /** The stamp carries every component: the export file names of two
      different moments differ. */
  lemma FileStampInjective(a: DateTime, b: DateTime)
    requires Valid(a) && Valid(b) && FileStamp(a) == FileStamp(b)
    ensures a == b
  {
    FileStampDate(a);
    FileStampDate(b);
    FileStampTime(a);
    FileStampTime(b);
  }
}
