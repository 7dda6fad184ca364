/**
 * Calendar dates as `datetime.strptime(s, '%Y-%m-%d')` reads them, and the
 * day difference `(end - start).days` of two parsed dates, which Python
 * computes from proleptic-Gregorian day numbers (`date.toordinal`).
 */
module Calendar {
  import opened Wrappers

  datatype Date = Date(year: int, month: int, day: int)

  predicate IsLeapYear(y: int) {
    y % 4 == 0 && (y % 100 != 0 || y % 400 == 0)
  }

  function DaysInMonth(y: int, m: int): int
    requires 1 <= m <= 12
  {
    if m == 2 then (if IsLeapYear(y) then 29 else 28)
    else if m == 4 || m == 6 || m == 9 || m == 11 then 30
    else 31
  }

  /** A day of the proleptic Gregorian calendar (year 1 onwards). */
  predicate ValidDate(d: Date) {
    1 <= d.year && 1 <= d.month <= 12 && 1 <= d.day <= DaysInMonth(d.year, d.month)
  }

  function DaysBeforeYear(y: int): int
    requires 1 <= y
  {
    var p := y - 1;
    p * 365 + p / 4 - p / 100 + p / 400
  }

  function DaysBeforeMonth(y: int, m: int): int
    requires 1 <= m <= 12
  {
    [0, 31, 59, 90, 120, 151, 181, 212, 243, 273, 304, 334][m - 1]
      + (if m > 2 && IsLeapYear(y) then 1 else 0)
  }

  /** Day number of `d`, with 0001-01-01 as day 1 (Python's `toordinal`). */
  function DayNumber(d: Date): int
    requires ValidDate(d)
  {
    DaysBeforeYear(d.year) + DaysBeforeMonth(d.year, d.month) + d.day
  }

  /** `(end - start).days` for two midnight datetimes. */
  function DaysBetween(start: Date, end: Date): int
    requires ValidDate(start) && ValidDate(end)
  {
    DayNumber(end) - DayNumber(start)
  }

  /** The calendar's successor of a day, defined independently of day numbers. */
  function NextDay(d: Date): (n: Date)
    requires ValidDate(d)
    ensures ValidDate(n)
  {
    if d.day < DaysInMonth(d.year, d.month) then Date(d.year, d.month, d.day + 1)
    else if d.month < 12 then Date(d.year, d.month + 1, 1)
    else Date(d.year + 1, 1, 1)
  }

  lemma YearLength(y: int)
    requires 1 <= y
    ensures DaysBeforeYear(y + 1) - DaysBeforeYear(y) == if IsLeapYear(y) then 366 else 365
  {
    var p := y - 1;
    DivIncrement(p, 4);
    DivIncrement(p, 100);
    DivIncrement(p, 400);
    MultipleOfMultiple(y, 4, 25);
    MultipleOfMultiple(y, 100, 4);
  }

  /** Counting multiples of `k`: one more is passed exactly when `p + 1` is one. */
  lemma DivIncrement(p: int, k: int)
    requires p >= 0 && (k == 4 || k == 100 || k == 400)
    ensures (p + 1) / k - p / k == if (p + 1) % k == 0 then 1 else 0
  {
    var q, r := p / k, p % k;
    assert p == k * q + r && 0 <= r < k;
    if r == k - 1 {
      assert p + 1 == k * (q + 1) + 0;
    } else {
      assert p + 1 == k * q + (r + 1);
    }
  }

  lemma MultipleOfMultiple(y: int, a: int, b: int)
    requires (a == 4 && b == 25) || (a == 100 && b == 4)
    ensures y % (a * b) == 0 ==> y % a == 0
  {
    if y % (a * b) == 0 {
      var c := y / (a * b);
      assert y == (a * b) * c;
      assert y == a * (b * c) + 0;
    }
  }

  /** Day numbers count days: the next calendar day has the next number. */
  lemma DayNumberNextDay(d: Date)
    requires ValidDate(d)
    ensures DayNumber(NextDay(d)) == DayNumber(d) + 1
  {
    if d.day == DaysInMonth(d.year, d.month) && d.month == 12 {
      YearLength(d.year);
    }
  }

  lemma {:induction false} DayNumberDistance(d: Date, k: nat)
    requires ValidDate(d)
    ensures ValidDate(Advance(d, k)) && DayNumber(Advance(d, k)) == DayNumber(d) + k
  {
    if k > 0 {
      DayNumberDistance(d, k - 1);
      DayNumberNextDay(Advance(d, k - 1));
    }
  }

  /** `k` calendar days after `d`. */
  function Advance(d: Date, k: nat): (r: Date)
    requires ValidDate(d)
    ensures ValidDate(r)
  {
    if k == 0 then d else NextDay(Advance(d, k - 1))
  }

  predicate IsDigit(c: char) {
    '0' <= c <= '9'
  }

  function DigitValue(c: char): int
    requires IsDigit(c)
  {
    c as int - '0' as int
  }

  function Digit(n: int): char
    requires 0 <= n <= 9
  {
    ('0' as int + n) as char
  }

  /** `%m`: the pattern `1[0-2]|0[1-9]|[1-9]` matched by the whole of `t`. */
  function ParseMonth(t: string): Option<int> {
    if |t| == 1 && '1' <= t[0] <= '9' then Some(DigitValue(t[0]))
    else if |t| == 2 && t[0] == '0' && '1' <= t[1] <= '9' then Some(DigitValue(t[1]))
    else if |t| == 2 && t[0] == '1' && '0' <= t[1] <= '2' then Some(10 + DigitValue(t[1]))
    else None
  }

  /** `%d`: the pattern `3[01]|[12]\d|0[1-9]|[1-9]| [1-9]` matched by the whole of `t`. */
  function ParseDay(t: string): Option<int> {
    if |t| == 1 && '1' <= t[0] <= '9' then Some(DigitValue(t[0]))
    else if |t| == 2 && (t[0] == '0' || t[0] == ' ') && '1' <= t[1] <= '9' then Some(DigitValue(t[1]))
    else if |t| == 2 && (t[0] == '1' || t[0] == '2') && IsDigit(t[1]) then Some(10 * DigitValue(t[0]) + DigitValue(t[1]))
    else if |t| == 2 && t[0] == '3' && (t[1] == '0' || t[1] == '1') then Some(30 + DigitValue(t[1]))
    else None
  }

  /**
   * `strptime(s, '%Y-%m-%d')`: four digits, a dash, a month of one or two
   * characters, a dash, a day that ends the string; year 0 and days past the
   * end of the month are rejected. `None` is the `ValueError`.
   */
  function ParseDate(s: string): (r: Option<Date>)
    ensures r.Some? ==> ValidDate(r.value) && r.value.year <= 9999
  {
    if |s| < 5 || !(IsDigit(s[0]) && IsDigit(s[1]) && IsDigit(s[2]) && IsDigit(s[3])) || s[4] != '-' then None
    else
      var year := 1000 * DigitValue(s[0]) + 100 * DigitValue(s[1]) + 10 * DigitValue(s[2]) + DigitValue(s[3]);
      var rest := s[5..];
      var monthAndDay :=
        if |rest| >= 3 && rest[2] == '-' && ParseMonth(rest[..2]).Some? then Some((ParseMonth(rest[..2]).value, rest[3..]))
        else if |rest| >= 2 && rest[1] == '-' && ParseMonth(rest[..1]).Some? then Some((ParseMonth(rest[..1]).value, rest[2..]))
        else None;
      if monthAndDay.None? then None
      else
        var (month, dayText) := monthAndDay.value;
        var day := ParseDay(dayText);
        if year == 0 || day.None? || day.value > DaysInMonth(year, month) then None
        else Some(Date(year, month, day.value))
  }

  /** The ISO 8601 extended calendar-date form `YYYY-MM-DD` of a date. */
  function FormatDate(d: Date): string
    requires ValidDate(d) && d.year <= 9999
  {
    [Digit(d.year / 10 / 10 / 10), Digit(d.year / 10 / 10 % 10), Digit(d.year / 10 % 10), Digit(d.year % 10), '-',
     Digit(d.month / 10), Digit(d.month % 10), '-',
     Digit(d.day / 10), Digit(d.day % 10)]
  }

  lemma YearDigits(y: int)
    requires 0 <= y <= 9999
    ensures 0 <= y / 10 / 10 / 10 <= 9
    ensures 1000 * (y / 10 / 10 / 10) + 100 * (y / 10 / 10 % 10) + 10 * (y / 10 % 10) + y % 10 == y
  {
    var r1 := y / 10;
    var r2 := r1 / 10;
    assert y == 10 * r1 + y % 10;
    assert r1 == 10 * r2 + r1 % 10;
    assert r2 == 10 * (r2 / 10) + r2 % 10;
  }

  lemma DigitRoundTrip(n: int)
    requires 0 <= n <= 9
    ensures IsDigit(Digit(n)) && DigitValue(Digit(n)) == n
  {
  }

  lemma ParseMonthFormatted(m: int)
    requires 1 <= m <= 12
    ensures ParseMonth([Digit(m / 10), Digit(m % 10)]) == Some(m)
  {
    DigitRoundTrip(m / 10);
    DigitRoundTrip(m % 10);
  }

  lemma ParseDayFormatted(d: int)
    requires 1 <= d <= 31
    ensures ParseDay([Digit(d / 10), Digit(d % 10)]) == Some(d)
  {
    DigitRoundTrip(d / 10);
    DigitRoundTrip(d % 10);
  }

  /** Every date of years 1 to 9999 written as `YYYY-MM-DD` parses back to itself. */
  lemma ParseFormatDate(d: Date)
    requires ValidDate(d) && d.year <= 9999
    ensures ParseDate(FormatDate(d)) == Some(d)
  {
    var s := FormatDate(d);
    var y := d.year;
    YearDigits(y);
    DigitRoundTrip(y / 10 / 10 / 10);
    DigitRoundTrip(y / 10 / 10 % 10);
    DigitRoundTrip(y / 10 % 10);
    DigitRoundTrip(y % 10);
    var rest := s[5..];
    assert rest[..2] == [Digit(d.month / 10), Digit(d.month % 10)];
    assert rest[3..] == [Digit(d.day / 10), Digit(d.day % 10)];
    ParseMonthFormatted(d.month);
    ParseDayFormatted(d.day);
  }
}
