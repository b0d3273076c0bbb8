/**
 * The two time readers the activity parser delegates to: `LocalTime.parse` for a
 * duration (a clock time, `HH:mm` or `HH:mm:ss`) and the shared date-time reader for a
 * start moment (`yyyy-MM-dd HH:mm`). Both are simplified fixed-width readers.
 */
module Clock {
  import opened Wrappers
  import opened Numbers

  /** A `LocalTime`: the parser stores an activity's duration as a time of day. */
  datatype Time = Time(hour: nat, minute: nat, second: nat)

  predicate ValidTime(t: Time) {
    t.hour < 24 && t.minute < 60 && t.second < 60
  }

  /** A `LocalDateTime` to minute precision. */
  datatype DateTime = DateTime(year: nat, month: nat, day: nat, hour: nat, minute: nat)

  /** A leap year of the proleptic Gregorian calendar. */
  predicate IsLeapYear(year: nat) {
    year % 4 == 0 && (year % 100 != 0 || year % 400 == 0)
  }

  /** The number of days of a month, February counting 29 in a leap year. */
  function DaysInMonth(year: nat, month: nat): nat
    requires 1 <= month <= 12
  {
    if month == 2 then (if IsLeapYear(year) then 29 else 28)
    else if month == 4 || month == 6 || month == 9 || month == 11 then 30
    else 31
  }

  /** A calendar date with four-digit year, and a time of day to the minute. */
  predicate ValidDateTime(d: DateTime) {
    && d.year < 10000 && 1 <= d.month <= 12 && 1 <= d.day <= DaysInMonth(d.year, d.month)
    && d.hour < 24 && d.minute < 60
  }

  /** The number written by the two ASCII digits at offset `k`. */
  function TwoDigits(s: string, k: nat): (r: Option<nat>)
    requires k + 2 <= |s|
    ensures r.Some? ==> r.value < 100
  {
    if IsDigit(s[k]) && IsDigit(s[k + 1]) then Some(DigitValue(s[k]) * 10 + DigitValue(s[k + 1]))
    else None
  }

  /** The number written by the four ASCII digits at offset `k`. */
  function FourDigits(s: string, k: nat): (r: Option<nat>)
    requires k + 4 <= |s|
    ensures r.Some? ==> r.value < 10000
  {
    match (TwoDigits(s, k), TwoDigits(s, k + 2))
    case (Some(hi), Some(lo)) => Some(hi * 100 + lo)
    case _ => None
  }

  /**
   * `LocalTime.parse(s)`: `HH:mm` or `HH:mm:ss`, two digits per field, hour below 24,
   * minute and second below 60; the second defaults to zero.
   */
  function ParseLocalTime(s: string): (r: Option<Time>)
    ensures r.Some? ==> ValidTime(r.value)
    ensures r.Some? ==> (|s| == 5 || |s| == 8) && s[2] == ':'
    ensures r.Some? && |s| == 5 ==> r.value.second == 0
  {
    if !(|s| == 5 || (|s| == 8 && s[5] == ':')) || s[2] != ':' then None
    else
      match (TwoDigits(s, 0), TwoDigits(s, 3), if |s| == 8 then TwoDigits(s, 6) else Some(0))
      case (Some(h), Some(m), Some(sec)) =>
        if h < 24 && m < 60 && sec < 60 then Some(Time(h, m, sec)) else None
      case _ => None
  }

  /**
   * The shared date-time reader: exactly `yyyy-MM-dd HH:mm`; date-only or time-only text
   * and out-of-range fields are rejected.
   */
  function ParseDateTime(s: string): (r: Option<DateTime>)
    ensures r.Some? ==> ValidDateTime(r.value)
    ensures r.Some? ==> |s| == 16 && s[4] == '-' && s[7] == '-' && s[10] == ' ' && s[13] == ':'
  {
    if |s| != 16 || s[4] != '-' || s[7] != '-' || s[10] != ' ' || s[13] != ':' then None
    else
      match (FourDigits(s, 0), TwoDigits(s, 5), TwoDigits(s, 8), TwoDigits(s, 11), TwoDigits(s, 14))
      case (Some(y), Some(mo), Some(d), Some(h), Some(mi)) =>
        var dt := DateTime(y, mo, d, h, mi);
        if ValidDateTime(dt) then Some(dt) else None
      case _ => None
  }

  /** Two-digit, zero-padded rendering of `n`. */
  function Pad2(n: nat): (r: string)
    requires n < 100
    ensures |r| == 2 && IsDigit(r[0]) && IsDigit(r[1])
  {
    [DigitChar(n / 10), DigitChar(n % 10)]
  }

  function Pad4(n: nat): (r: string)
    requires n < 10000
    ensures |r| == 4
  {
    Pad2(n / 100) + Pad2(n % 100)
  }

  /** The `HH:mm:ss` rendering of a time of day. */
  function FormatTime(t: Time): string
    requires ValidTime(t)
  {
    Pad2(t.hour) + ":" + Pad2(t.minute) + ":" + Pad2(t.second)
  }

  /** Every number of `d` fits the width `yyyy-MM-dd HH:mm` gives it. */
  predicate FitsFormat(d: DateTime) {
    d.year < 10000 && d.month < 100 && d.day < 100 && d.hour < 100 && d.minute < 100
  }

  /** The `yyyy-MM-dd HH:mm` rendering of a date-time, whether or not it names a real moment. */
  function FormatDateTime(d: DateTime): string
    requires FitsFormat(d)
  {
    Pad4(d.year) + "-" + Pad2(d.month) + "-" + Pad2(d.day) + " " + Pad2(d.hour) + ":" + Pad2(d.minute)
  }

  lemma TwoDigitsOfPad2(s: string, k: nat, n: nat)
    requires n < 100 && k + 2 <= |s|
    requires s[k] == Pad2(n)[0] && s[k + 1] == Pad2(n)[1]
    ensures TwoDigits(s, k) == Some(n)
  {
  }

  /** Every valid time of day reads back from its `HH:mm:ss` rendering. */
  lemma TimeRoundTrip(t: Time)
    requires ValidTime(t)
    ensures ParseLocalTime(FormatTime(t)) == Some(t)
  {
    var s := FormatTime(t);
    TwoDigitsOfPad2(s, 0, t.hour);
    TwoDigitsOfPad2(s, 3, t.minute);
    TwoDigitsOfPad2(s, 6, t.second);
  }

  /** The short `HH:mm` form reads as the time with zero seconds. */
  lemma ShortTimeRoundTrip(hour: nat, minute: nat)
    requires hour < 24 && minute < 60
    ensures ParseLocalTime(Pad2(hour) + ":" + Pad2(minute)) == Some(Time(hour, minute, 0))
  {
    var s := Pad2(hour) + ":" + Pad2(minute);
    TwoDigitsOfPad2(s, 0, hour);
    TwoDigitsOfPad2(s, 3, minute);
  }

  /**
   * A rendered date-time reads back exactly when it names a calendar date and a time of
   * day, and then as itself.
   */
  lemma DateTimeRoundTrip(d: DateTime)
    requires FitsFormat(d)
    ensures ParseDateTime(FormatDateTime(d)) == if ValidDateTime(d) then Some(d) else None
  {
    var s := FormatDateTime(d);
    TwoDigitsOfPad2(s, 0, d.year / 100);
    TwoDigitsOfPad2(s, 2, d.year % 100);
    TwoDigitsOfPad2(s, 5, d.month);
    TwoDigitsOfPad2(s, 8, d.day);
    TwoDigitsOfPad2(s, 11, d.hour);
    TwoDigitsOfPad2(s, 14, d.minute);
  }

  /** A day past the end of its month is refused; February 29 is refused outside leap years. */
  lemma CalendarDays()
    ensures ParseDateTime(FormatDateTime(DateTime(2023, 2, 31, 10, 0))) == None
    ensures ParseDateTime(FormatDateTime(DateTime(2023, 4, 31, 10, 0))) == None
    ensures ParseDateTime(FormatDateTime(DateTime(2023, 2, 29, 10, 0))) == None
    ensures ParseDateTime(FormatDateTime(DateTime(1900, 2, 29, 10, 0))) == None
    ensures ParseDateTime(FormatDateTime(DateTime(2000, 2, 29, 10, 0))) == Some(DateTime(2000, 2, 29, 10, 0))
  {
    DateTimeRoundTrip(DateTime(2023, 2, 31, 10, 0));
    DateTimeRoundTrip(DateTime(2023, 4, 31, 10, 0));
    DateTimeRoundTrip(DateTime(2023, 2, 29, 10, 0));
    DateTimeRoundTrip(DateTime(1900, 2, 29, 10, 0));
    DateTimeRoundTrip(DateTime(2000, 2, 29, 10, 0));
  }
}
