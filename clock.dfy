/** Time as integer minutes since 1970-01-01 00:00 in the server's local
    time zone, the calendar day and hour of an instant, and the
    `strptime(s, '%Y-%m-%d')` parser the slot-list date filter relies on. */
module Clock {
  import opened Wrappers

  const MinutesPerHour: int := 60
  const MinutesPerDay: int := 1440

  /** `t.date()`, as a day number (day 0 is 1970-01-01). */
  function Day(t: int): int {
    t / MinutesPerDay
  }

  /** `t.hour` */
  function Hour(t: int): (h: int)
    ensures 0 <= h < 24
  {
    (t % MinutesPerDay) / MinutesPerHour
  }

  /** `make_aware(datetime.combine(d, time.min))`: the first minute of day `d`. */
  function Midnight(d: int): int {
    d * MinutesPerDay
  }

  /** An instant falls on day `d` exactly when it lies in the half-open
      window [midnight, midnight + one day). */
  lemma DayWindow(t: int, d: int)
    ensures Day(t) == d <==> Midnight(d) <= t < Midnight(d) + MinutesPerDay
  {
    var q := t / MinutesPerDay;
    var r := t % MinutesPerDay;
    assert t == q * MinutesPerDay + r && 0 <= r < MinutesPerDay;
    if d < q {
      assert Midnight(d) + MinutesPerDay <= q * MinutesPerDay;
    } else if q < d {
      assert (q + 1) * MinutesPerDay <= Midnight(d);
    }
  }

  // ---------------------------------------------------------------------
  // Calendar dates

  datatype Date = Date(year: int, month: int, day: int)

  predicate IsLeap(y: int) {
    (y % 4 == 0 && y % 100 != 0) || y % 400 == 0
  }

  function DaysInMonth(y: int, m: int): (n: int)
    requires 1 <= m <= 12
    ensures 28 <= n <= 31
  {
    if m == 2 then (if IsLeap(y) then 29 else 28)
    else if m == 4 || m == 6 || m == 9 || m == 11 then 30
    else 31
  }

  /** A date `datetime.date` accepts: years 1..9999, a real month and day. */
  predicate ValidDate(dt: Date) {
    1 <= dt.year <= 9999 && 1 <= dt.month <= 12 && 1 <= dt.day <= DaysInMonth(dt.year, dt.month)
  }

  /** Day number of a date in the proleptic Gregorian calendar. */
  function DayNumber(dt: Date): int
    requires ValidDate(dt)
  {
    var y := if dt.month <= 2 then dt.year - 1 else dt.year;
    var era := y / 400;
    var yoe := y - era * 400;
    var mp := (dt.month + 9) % 12;
    var doy := (153 * mp + 2) / 5 + dt.day - 1;
    var doe := yoe * 365 + yoe / 4 - yoe / 100 + doy;
    era * 146097 + doe - 719468
  }

  lemma EpochIsDayZero()
    ensures DayNumber(Date(1970, 1, 1)) == 0
  {
  }

  /** Consecutive days of a month have consecutive day numbers. */
  lemma NextDayNumber(dt: Date)
    requires ValidDate(dt) && dt.day < DaysInMonth(dt.year, dt.month)
    ensures ValidDate(dt.(day := dt.day + 1))
    ensures DayNumber(dt.(day := dt.day + 1)) == DayNumber(dt) + 1
  {
  }

  // ---------------------------------------------------------------------
  // strptime(s, '%Y-%m-%d')

  predicate IsDigit(c: char) {
    '0' <= c <= '9'
  }

  function DigitValue(c: char): int
    requires IsDigit(c)
  {
    c as int - '0' as int
  }

  /** What `%d` matches at the start of `t`: its alternatives
      `3[01]`, `[12]\d`, `0[1-9]`, `[1-9]`, ` [1-9]` tried in order.
      Returns the day and the number of characters consumed. */
  function MatchDay(t: string): (r: Option<(int, nat)>)
    ensures r.Some? ==> 1 <= r.value.0 <= 39 && 1 <= r.value.1 <= 2 && r.value.1 <= |t|
  {
    if |t| >= 2 && t[0] == '3' && (t[1] == '0' || t[1] == '1') then Some((30 + DigitValue(t[1]), 2))
    else if |t| >= 2 && (t[0] == '1' || t[0] == '2') && IsDigit(t[1]) then Some((10 * DigitValue(t[0]) + DigitValue(t[1]), 2))
    else if |t| >= 2 && t[0] == '0' && '1' <= t[1] <= '9' then Some((DigitValue(t[1]), 2))
    else if |t| >= 1 && '1' <= t[0] <= '9' then Some((DigitValue(t[0]), 1))
    else if |t| >= 2 && t[0] == ' ' && '1' <= t[1] <= '9' then Some((DigitValue(t[1]), 2))
    else None
  }

  /** `-%d` after a month that consumed `n` characters of `t`: the month,
      day and total characters consumed, if the rest of the pattern matches. */
  function MatchDashDay(t: string, month: int, n: nat): Option<(int, int, nat)>
    requires n <= |t|
  {
    var rest := t[n..];
    if |rest| >= 1 && rest[0] == '-' then
      match MatchDay(rest[1..])
      case Some((d, k)) => Some((month, d, n + 1 + k))
      case None => None
    else None
  }

  /** What `%m-%d` matches at the start of `t`: the month alternatives
      `1[0-2]`, `0[1-9]`, `[1-9]` tried in order, backtracking to the next
      one when the rest of the pattern does not match. */
  function MatchMonthDay(t: string): (r: Option<(int, int, nat)>)
    ensures r.Some? ==> 1 <= r.value.0 <= 12 && r.value.2 <= |t|
  {
    var first :=
      if |t| >= 2 && t[0] == '1' && '0' <= t[1] <= '2' then MatchDashDay(t, 10 + DigitValue(t[1]), 2) else None;
    var second :=
      if |t| >= 2 && t[0] == '0' && '1' <= t[1] <= '9' then MatchDashDay(t, DigitValue(t[1]), 2) else None;
    var third :=
      if |t| >= 1 && '1' <= t[0] <= '9' then MatchDashDay(t, DigitValue(t[0]), 1) else None;
    if first.Some? then first else if second.Some? then second else third
  }

  function FourDigits(s: string): int
    requires |s| >= 4 && IsDigit(s[0]) && IsDigit(s[1]) && IsDigit(s[2]) && IsDigit(s[3])
  {
    1000 * DigitValue(s[0]) + 100 * DigitValue(s[1]) + 10 * DigitValue(s[2]) + DigitValue(s[3])
  }

  /** `datetime.strptime(s, '%Y-%m-%d').date()`, or None where it raises
      ValueError: no match, unconverted characters left over, or a date
      `datetime.date` rejects. */
  function ParseDate(s: string): (r: Option<Date>)
    ensures r.Some? ==> ValidDate(r.value)
  {
    if |s| >= 5 && IsDigit(s[0]) && IsDigit(s[1]) && IsDigit(s[2]) && IsDigit(s[3]) && s[4] == '-' then
      var year := FourDigits(s);
      match MatchMonthDay(s[5..])
      case None => None
      case Some((m, d, n)) =>
        if 5 + n != |s| then None
        else if ValidDate(Date(year, m, d)) then Some(Date(year, m, d))
        else None
    else None
  }

  // ---------------------------------------------------------------------
  // Formatting, the partner of parsing

  function Digit(n: int): char
    requires 0 <= n < 10
  {
    (n + '0' as int) as char
  }

  function Pad2(n: int): string
    requires 0 <= n < 100
  {
    [Digit(n / 10), Digit(n % 10)]
  }

  function Year4(y: int): (s: string)
    requires 0 <= y <= 9999
    ensures |s| == 4
  {
    [Digit(y / 1000), Digit(y / 100 % 10), Digit(y / 10 % 10), Digit(y % 10)]
  }

  /** `date.isoformat()`: YYYY-MM-DD with zero padding. */
  function FormatDate(dt: Date): (s: string)
    requires ValidDate(dt)
    ensures |s| == 10
  {
    Year4(dt.year) + "-" + Pad2(dt.month) + "-" + Pad2(dt.day)
  }

  lemma Year4Digits(y: int, s: string)
    requires 0 <= y <= 9999 && |s| >= 4 && s[..4] == Year4(y)
    ensures IsDigit(s[0]) && IsDigit(s[1]) && IsDigit(s[2]) && IsDigit(s[3])
    ensures FourDigits(s) == y
  {
    assert s[0] == s[..4][0] && s[1] == s[..4][1] && s[2] == s[..4][2] && s[3] == s[..4][3];
    var q1, q2, q3 := y / 10, y / 100, y / 1000;
    assert y == 10 * q1 + y % 10;
    assert q1 == 10 * q2 + q1 % 10 by { assert q2 == q1 / 10; }
    assert q2 == 10 * q3 + q2 % 10 by { assert q3 == q2 / 10; }
    assert DigitValue(s[0]) == q3 && DigitValue(s[1]) == q2 % 10;
    assert DigitValue(s[2]) == q1 % 10 && DigitValue(s[3]) == y % 10;
  }

  lemma MatchDayPadded(t: string, d: int)
    requires 1 <= d <= 31 && t == Pad2(d)
    ensures MatchDay(t) == Some((d, 2))
  {
  }

  lemma MatchMonthDayPadded(t: string, m: int, d: int)
    requires 1 <= m <= 12 && 1 <= d <= 31 && t == Pad2(m) + "-" + Pad2(d)
    ensures MatchMonthDay(t) == Some((m, d, 5))
  {
    assert t[2..] == "-" + Pad2(d);
    assert t[3..] == Pad2(d);
    MatchDayPadded(t[3..], d);
  }

  /** Every valid date parses back from its ISO form. */
  lemma ParseFormat(dt: Date)
    requires ValidDate(dt)
    ensures ParseDate(FormatDate(dt)) == Some(dt)
  {
    var s := FormatDate(dt);
    var tail := Pad2(dt.month) + "-" + Pad2(dt.day);
    assert s == Year4(dt.year) + "-" + tail;
    assert s[..4] == Year4(dt.year);
    assert s[4] == '-';
    assert s[5..] == tail;
    Year4Digits(dt.year, s);
    MatchMonthDayPadded(tail, dt.month, dt.day);
  }

  /** Unpadded fields are accepted too. */
  lemma ParseUnpadded(s: string)
    requires s == "2024-1-5"
    ensures ParseDate(s) == Some(Date(2024, 1, 5))
  {
    assert s[5..] == "1-5";
  }

  /** A day past the end of the month is a ValueError. */
  lemma ParseRejectsFebruary30(s: string)
    requires s == "2023-02-30"
    ensures ParseDate(s) == None
  {
    assert s[5..] == "02-30";
  }

  /** Month 13 does not match `%m-`, because `1` alone is followed by `3`. */
  lemma ParseRejectsMonth13(s: string)
    requires s == "2024-13-01"
    ensures ParseDate(s) == None
  {
    assert s[5..] == "13-01";
  }

  /** Trailing characters are "unconverted data". */
  lemma ParseRejectsTrailing(s: string)
    requires s == "2024-01-015"
    ensures ParseDate(s) == None
  {
    assert s[5..] == "01-015";
  }
}
