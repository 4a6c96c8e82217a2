/**
 * datetime.strptime(date_str, "%Y.%m.%d") as CPython's _strptime performs it:
 * the format becomes the regular expression
 *   (\d\d\d\d)\.(1[0-2]|0[1-9]|[1-9])\.(3[01]|[12]\d|0[1-9]|[1-9]| [1-9])
 * which is matched at the start of the text (the first alternative that
 * matches wins), any unconverted text after the match is an error, and the
 * resulting date must exist in the proleptic Gregorian calendar.
 */
module Dates {

  import opened Optional
  import opened Text

  /** The tzinfo of a datetime: none (naive) or timezone.utc. */
  datatype Zone = Naive | Utc

  datatype DateTime = DateTime(year: int, month: int, day: int,
                               hour: int, minute: int, second: int, microsecond: int,
                               tz: Zone)

  predicate IsLeapYear(y: int) {
    y % 4 == 0 && (y % 100 != 0 || y % 400 == 0)
  }

  function DaysInMonth(y: int, m: int): int
    requires 1 <= m <= 12
  {
    if m == 2 then (if IsLeapYear(y) then 29 else 28)
    else if m == 4 || m == 6 || m == 9 || m == 11 then 30
    else 31
  }

  /** A date that datetime accepts (MINYEAR is 1, MAXYEAR is 9999). */
  predicate ValidDate(y: int, m: int, d: int) {
    1 <= y <= 9999 && 1 <= m <= 12 && 1 <= d <= DaysInMonth(y, m)
  }

  /** The naive datetime strptime builds for a date: midnight, no tzinfo. */
  function Midnight(y: int, m: int, d: int): DateTime {
    DateTime(y, m, d, 0, 0, 0, 0, Naive)
  }

  function DigitValue(c: char): int
    requires IsDigit(c)
  {
    (c - '0') as int
  }

  /** The %m group followed by the "." after it, as (month, digits used). */
  function MonthThenDot(t: string): Option<(int, nat)> {
    if |t| >= 3 && t[0] == '1' && '0' <= t[1] <= '2' && t[2] == '.' then Some((10 + DigitValue(t[1]), 2))
    else if |t| >= 3 && t[0] == '0' && '1' <= t[1] <= '9' && t[2] == '.' then Some((DigitValue(t[1]), 2))
    else if |t| >= 2 && '1' <= t[0] <= '9' && t[1] == '.' then Some((DigitValue(t[0]), 1))
    else None
  }

  /** The %d group: its first alternative that matches at the start of t, as (day, characters used). */
  function DayPrefix(t: string): Option<(int, nat)> {
    if |t| >= 2 && t[0] == '3' && '0' <= t[1] <= '1' then Some((30 + DigitValue(t[1]), 2))
    else if |t| >= 2 && '1' <= t[0] <= '2' && IsDigit(t[1]) then Some((10 * DigitValue(t[0]) + DigitValue(t[1]), 2))
    else if |t| >= 2 && t[0] == '0' && '1' <= t[1] <= '9' then Some((DigitValue(t[1]), 2))
    else if |t| >= 1 && '1' <= t[0] <= '9' then Some((DigitValue(t[0]), 1))
    else if |t| >= 2 && t[0] == ' ' && '1' <= t[1] <= '9' then Some((DigitValue(t[1]), 2))
    else None
  }

  /**
   * datetime.strptime(s, "%Y.%m.%d"), with None for the ValueError it raises.
   * Whatever it returns is a real calendar date at midnight, without tzinfo.
   */
  function ParseDate(s: string): (r: Option<DateTime>)
    ensures r.Some? ==> ValidDate(r.value.year, r.value.month, r.value.day)
    ensures r.Some? ==> r.value == Midnight(r.value.year, r.value.month, r.value.day)
  {
    if |s| < 5 || !IsDigit(s[0]) || !IsDigit(s[1]) || !IsDigit(s[2]) || !IsDigit(s[3]) || s[4] != '.' then None
    else
      var y := 1000 * DigitValue(s[0]) + 100 * DigitValue(s[1]) + 10 * DigitValue(s[2]) + DigitValue(s[3]);
      match MonthThenDot(s[5..])
      case None => None
      case Some((m, n)) =>
        var t := s[5 + n + 1..];
        match DayPrefix(t)
        case None => None
        case Some((d, k)) =>
          if k != |t| then None                   // "unconverted data remains"
          else if !ValidDate(y, m, d) then None   // "day is out of range for month", "year 0 is out of range"
          else Some(Midnight(y, m, d))
  }

  function Digit(n: int): (c: char)
    requires 0 <= n <= 9
    ensures IsDigit(c) && DigitValue(c) == n
  {
    ('0' as int + n) as char
  }

  /** Two decimal digits, zero-padded ("%02d"). */
  function TwoDigits(n: int): (s: string)
    requires 0 <= n <= 99
    ensures |s| == 2 && IsDigit(s[0]) && IsDigit(s[1])
    ensures 10 * DigitValue(s[0]) + DigitValue(s[1]) == n
  {
    [Digit(n / 10), Digit(n % 10)]
  }

  /** Four decimal digits, zero-padded ("%04d"). */
  function FourDigits(n: int): (s: string)
    requires 0 <= n <= 9999
    ensures |s| == 4 && IsDigit(s[0]) && IsDigit(s[1]) && IsDigit(s[2]) && IsDigit(s[3])
    ensures 1000 * DigitValue(s[0]) + 100 * DigitValue(s[1]) + 10 * DigitValue(s[2]) + DigitValue(s[3]) == n
  {
    var a := n / 1000;
    var r1 := n - 1000 * a;
    var b := r1 / 100;
    var r2 := r1 - 100 * b;
    var c := r2 / 10;
    [Digit(a), Digit(b), Digit(c), Digit(r2 - 10 * c)]
  }

  /** The date as the site prints it, "YYYY.MM.DD". */
  function FormatDate(y: int, m: int, d: int): string
    requires ValidDate(y, m, d)
  {
    FourDigits(y) + "." + TwoDigits(m) + "." + TwoDigits(d)
  }

  /** Every date printed as "YYYY.MM.DD" parses back to that date, at midnight and naive. */
  lemma ParseFormattedDate(y: int, m: int, d: int)
    requires ValidDate(y, m, d)
    ensures ParseDate(FormatDate(y, m, d)) == Some(Midnight(y, m, d))
  {
    var s := FormatDate(y, m, d);
    var ys, ms, ds := FourDigits(y), TwoDigits(m), TwoDigits(d);
    assert s[..4] == ys;
    assert s[5..] == ms + "." + ds;
    assert MonthThenDot(ms + "." + ds) == Some((m, 2));
    assert s[8..] == ds;
    assert DayPrefix(ds) == Some((d, 2));
  }

  /** Text after a complete "YYYY.MM.DD" is never accepted: strptime reports unconverted data. */
  lemma ParseRejectsTrailingText(y: int, m: int, d: int, extra: string)
    requires ValidDate(y, m, d) && extra != []
    ensures ParseDate(FormatDate(y, m, d) + extra) == None
  {
    var s := FormatDate(y, m, d) + extra;
    var ms, ds := TwoDigits(m), TwoDigits(d);
    assert s[5..] == ms + "." + ds + extra;
    assert MonthThenDot(ms + "." + ds + extra) == Some((m, 2));
    assert s[8..] == ds + extra;
    assert DayPrefix(ds + extra).Some? && DayPrefix(ds + extra).value.1 == 2;
  }
}
