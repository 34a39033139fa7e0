/** Calendar dates as the script uses them: the proleptic Gregorian calendar
    of Python's `datetime`, the `%Y-%m-%d` and `%H%M%S` formats it writes with
    `strftime`, and the `%Y-%m-%d` format it reads back with `strptime`. */
module Calendar {
  import opened Outcomes

  datatype Date = Date(year: int, month: int, day: int)

  const MICROS_PER_DAY := 86_400_000_000

  /** A wall-clock reading: a date and the time of day in microseconds. */
  datatype DateTime = DateTime(date: Date, micros: int)

  predicate IsLeapYear(y: int)
  {
    y % 4 == 0 && (y % 100 != 0 || y % 400 == 0)
  }

  function DaysInMonth(y: int, m: int): (n: int)
    requires 1 <= m <= 12
    ensures 28 <= n <= 31
    ensures n == 29 <==> m == 2 && IsLeapYear(y)
  {
    if m == 2 then (if IsLeapYear(y) then 29 else 28)
    else if m == 4 || m == 6 || m == 9 || m == 11 then 30
    else 31
  }

  function DaysInYear(y: int): int
  {
    if IsLeapYear(y) then 366 else 365
  }

  /** The dates `datetime.date` accepts: years 1 to 9999. */
  predicate ValidDate(d: Date)
  {
    1 <= d.year <= 9999 && 1 <= d.month <= 12 && 1 <= d.day <= DaysInMonth(d.year, d.month)
  }

  predicate ValidDateTime(t: DateTime)
  {
    ValidDate(t.date) && 0 <= t.micros < MICROS_PER_DAY
  }

  /** The order in which Python compares dates: year, then month, then day. */
  predicate DateBefore(a: Date, b: Date)
  {
    a.year < b.year || (a.year == b.year && (a.month < b.month || (a.month == b.month && a.day < b.day)))
  }

  // ----- Day numbers (`date.toordinal()`) -----

  /** Days in the years before `y`. */
  function DaysBeforeYear(y: int): int
    requires y >= 1
  {
    var p := y - 1;
    365 * p + p / 4 - p / 100 + p / 400
  }

  /** Days in the months of year `y` before month `m`. */
  function DaysBeforeMonth(y: int, m: int): int
    requires 1 <= m <= 12
  {
    [0, 31, 59, 90, 120, 151, 181, 212, 243, 273, 304, 334][m - 1]
      + (if m > 2 && IsLeapYear(y) then 1 else 0)
  }

  /** 1 for 0001-01-01, counting one per day. */
  function Ordinal(d: Date): int
    requires ValidDate(d)
  {
    DaysBeforeYear(d.year) + DaysBeforeMonth(d.year, d.month) + d.day
  }

  /** The day number of 9999-12-31, the last date `datetime` can hold. */
  const MAX_ORDINAL := 3_652_059

  lemma MaxOrdinalIsLastDate()
    ensures Ordinal(Date(9999, 12, 31)) == MAX_ORDINAL
  {
  }

  /** The days of year `y` sit between its first and the next year's. */
  lemma DaysBeforeNextYear(y: int)
    requires y >= 1
    ensures DaysBeforeYear(y + 1) == DaysBeforeYear(y) + DaysInYear(y)
  {
    var a := y / 4 - (y - 1) / 4;
    var b := y / 100 - (y - 1) / 100;
    var c := y / 400 - (y - 1) / 400;
    assert a == if y % 4 == 0 then 1 else 0;
    assert b == if y % 100 == 0 then 1 else 0;
    assert c == if y % 400 == 0 then 1 else 0;
    assert DaysBeforeYear(y + 1) - DaysBeforeYear(y) == 365 + a - b + c;
    DivisorsNest(y);
  }

  lemma DivisorsNest(y: int)
    ensures y % 400 == 0 ==> y % 100 == 0
    ensures y % 100 == 0 ==> y % 4 == 0
  {
    if y % 400 == 0 {
      var m := 4 * (y / 400);
      assert y == 100 * m;
      assert 100 * (m - y / 100) == y % 100;
    }
    if y % 100 == 0 {
      var m := 25 * (y / 100);
      assert y == 4 * m;
      assert 4 * (m - y / 4) == y % 4;
    }
  }

  lemma {:induction false} DaysBeforeYearGrows(y1: int, y2: int)
    requires 1 <= y1 < y2
    ensures DaysBeforeYear(y1 + 1) <= DaysBeforeYear(y2)
    decreases y2 - y1
  {
    if y1 + 1 < y2 {
      DaysBeforeYearGrows(y1 + 1, y2);
      DaysBeforeNextYear(y1 + 1);
    }
  }

  lemma MonthFitsBeforeNext(y: int, m1: int, m2: int)
    requires 1 <= m1 < m2 <= 12
    ensures DaysBeforeMonth(y, m1) + DaysInMonth(y, m1) <= DaysBeforeMonth(y, m2)
  {
  }

  lemma MonthFitsInYear(y: int, m: int)
    requires 1 <= m <= 12
    ensures DaysBeforeMonth(y, m) + DaysInMonth(y, m) <= DaysInYear(y)
  {
  }

  /** A date's day number lies inside its year's range of day numbers. */
  lemma OrdinalWithinYear(d: Date)
    requires ValidDate(d)
    ensures DaysBeforeYear(d.year) < Ordinal(d) <= DaysBeforeYear(d.year + 1)
  {
    MonthFitsInYear(d.year, d.month);
    DaysBeforeNextYear(d.year);
  }

  lemma OrdinalIncreases(a: Date, b: Date)
    requires ValidDate(a) && ValidDate(b) && DateBefore(a, b)
    ensures Ordinal(a) < Ordinal(b)
  {
    OrdinalWithinYear(a);
    OrdinalWithinYear(b);
    if a.year < b.year {
      DaysBeforeYearGrows(a.year, b.year);
    } else if a.month < b.month {
      MonthFitsBeforeNext(a.year, a.month, b.month);
    }
  }

  /** Day numbers order dates exactly as Python compares them, so comparing
      day numbers (and then times of day) is comparing datetimes. */
  lemma OrdinalOrder(a: Date, b: Date)
    requires ValidDate(a) && ValidDate(b)
    ensures DateBefore(a, b) <==> Ordinal(a) < Ordinal(b)
    ensures a == b <==> Ordinal(a) == Ordinal(b)
  {
    if DateBefore(a, b) {
      OrdinalIncreases(a, b);
    } else if DateBefore(b, a) {
      OrdinalIncreases(b, a);
    }
  }

  /** Every valid date has a day number from 1 to `MAX_ORDINAL`. */
  lemma OrdinalBounds(d: Date)
    requires ValidDate(d)
    ensures 1 <= Ordinal(d) <= MAX_ORDINAL
  {
    OrdinalOrder(Date(1, 1, 1), d);
    OrdinalOrder(d, Date(9999, 12, 31));
    MaxOrdinalIsLastDate();
  }

  // ----- Formatting with strftime -----

  predicate IsDigit(c: char)
  {
    '0' <= c <= '9'
  }

  function DigitValue(c: char): (n: int)
    requires IsDigit(c)
    ensures 0 <= n <= 9
  {
    c as int - '0' as int
  }

  function DigitChar(n: int): (c: char)
    requires 0 <= n <= 9
    ensures IsDigit(c) && DigitValue(c) == n
  {
    ('0' as int + n) as char
  }

  predicate AllDigits(s: string)
  {
    forall i :: 0 <= i < |s| ==> IsDigit(s[i])
  }

  /** Two decimal digits, zero-padded (`%m`, `%d`, `%H`, `%M`, `%S`). */
  function Pad2(n: int): (s: string)
    requires 0 <= n <= 99
    ensures |s| == 2 && AllDigits(s) && 10 * DigitValue(s[0]) + DigitValue(s[1]) == n
  {
    [DigitChar(n / 10), DigitChar(n % 10)]
  }

  /** Four decimal digits, zero-padded (`%Y`). */
  function Pad4(n: int): (s: string)
    requires 0 <= n <= 9999
    ensures |s| == 4 && AllDigits(s) && Year4(s) == n
  {
    var hi, lo := Pad2(n / 100), Pad2(n % 100);
    assert 100 * (n / 100) + n % 100 == n;
    hi + lo
  }

  /** The value of four decimal digits. */
  function Year4(s: string): int
    requires |s| >= 4 && AllDigits(s[..4])
  {
    1000 * DigitValue(s[0]) + 100 * DigitValue(s[1]) + 10 * DigitValue(s[2]) + DigitValue(s[3])
  }

  /** `strftime("%Y-%m-%d")`: the name of a run folder and the date in an
      archive name. */
  function FormatDate(d: Date): (s: string)
    requires ValidDate(d)
    ensures |s| == 10 && s[4] == '-' && s[7] == '-'
    ensures AllDigits(s[..4]) && AllDigits(s[5..7]) && AllDigits(s[8..])
  {
    Pad4(d.year) + "-" + Pad2(d.month) + "-" + Pad2(d.day)
  }

  /** `strftime("%H%M%S")`: the time stamp in a temporary folder's name. */
  function FormatTime(t: DateTime): (s: string)
    requires ValidDateTime(t)
    ensures |s| == 6 && AllDigits(s)
    ensures 10 * DigitValue(s[0]) + DigitValue(s[1]) == t.micros / 1_000_000 / 3600
    ensures 10 * DigitValue(s[2]) + DigitValue(s[3]) == t.micros / 1_000_000 / 60 % 60
    ensures 10 * DigitValue(s[4]) + DigitValue(s[5]) == t.micros / 1_000_000 % 60
  {
    var secs := t.micros / 1_000_000;
    Pad2(secs / 3600) + Pad2(secs / 60 % 60) + Pad2(secs % 60)
  }

  // ----- Parsing with strptime("%Y-%m-%d") -----

  /** The `%m` pattern `1[0-2]|0[1-9]|[1-9]`, alternatives tried in order:
      the month and the number of characters matched.  Backtracking into a
      later alternative never helps, because the `-` that must follow is not
      a digit. */
  function MatchMonth(t: string): (r: Option<(int, int)>)
    ensures r.Some? ==> 1 <= r.value.0 <= 12 && 1 <= r.value.1 <= 2 && r.value.1 <= |t|
  {
    if |t| >= 2 && t[0] == '1' && '0' <= t[1] <= '2' then Some((10 + DigitValue(t[1]), 2))
    else if |t| >= 2 && t[0] == '0' && '1' <= t[1] <= '9' then Some((DigitValue(t[1]), 2))
    else if |t| >= 1 && '1' <= t[0] <= '9' then Some((DigitValue(t[0]), 1))
    else None
  }

  /** The `%d` pattern `3[01]|[12]\d|0[1-9]|[1-9]| [1-9]`, alternatives tried
      in order: the day and the number of characters matched. */
  function MatchDay(t: string): (r: Option<(int, int)>)
    ensures r.Some? ==> 1 <= r.value.0 <= 31 && 1 <= r.value.1 <= 2 && r.value.1 <= |t|
  {
    if |t| >= 2 && t[0] == '3' && '0' <= t[1] <= '1' then Some((30 + DigitValue(t[1]), 2))
    else if |t| >= 2 && '1' <= t[0] <= '2' && IsDigit(t[1]) then Some((10 * DigitValue(t[0]) + DigitValue(t[1]), 2))
    else if |t| >= 2 && t[0] == '0' && '1' <= t[1] <= '9' then Some((DigitValue(t[1]), 2))
    else if |t| >= 1 && '1' <= t[0] <= '9' then Some((DigitValue(t[0]), 1))
    else if |t| >= 2 && t[0] == ' ' && '1' <= t[1] <= '9' then Some((DigitValue(t[1]), 2))
    else None
  }

  /** `datetime.strptime(s, "%Y-%m-%d")`: the date, or None where Python
      raises ValueError (no match, characters left over after the day, or a
      day the month does not have, year 0 included). */
  function ParseDate(s: string): (r: Option<Date>)
    ensures r.Some? ==> ValidDate(r.value)
    ensures r.Some? ==> 8 <= |s| <= 10 && AllDigits(s[..4]) && s[4] == '-' && r.value.year == Year4(s)
  {
    if |s| < 5 || !AllDigits(s[..4]) || s[4] != '-' then None
    else
      match MatchMonth(s[5..])
      case None => None
      case Some((month, monthLength)) =>
        var rest := s[5 + monthLength..];
        if |rest| == 0 || rest[0] != '-' then None
        else
          match MatchDay(rest[1..])
          case None => None
          case Some((day, dayLength)) =>
            if dayLength != |rest| - 1 then None
            else
              var d := Date(Year4(s), month, day);
              if ValidDate(d) then Some(d) else None
  }

  /** The pruner reads back every folder name the script writes: the
      formatted date parses to the same date. */
  lemma ParseFormatted(d: Date)
    requires ValidDate(d)
    ensures ParseDate(FormatDate(d)) == Some(d)
  {
    var s := FormatDate(d);
    assert s[..4] == Pad4(d.year);
    assert s[5..] == Pad2(d.month) + "-" + Pad2(d.day);
    var rest := s[7..];
    assert rest == "-" + Pad2(d.day);
    assert MatchMonth(s[5..]) == Some((d.month, 2));
    assert MatchDay(rest[1..]) == Some((d.day, 2));
  }

  /** A name the script itself writes parses. */
  lemma FullNameParses()
    ensures ParseDate("2024-12-31") == Some(Date(2024, 12, 31))
  {
  }

  /** strptime is lenient: single-digit months and days are accepted. */
  lemma ShortNameParses()
    ensures ParseDate("2024-1-5") == Some(Date(2024, 1, 5))
  {
  }

  /** strptime also accepts a space before a single-digit day. */
  lemma SpacedDayParses()
    ensures ParseDate("2024-01- 5") == Some(Date(2024, 1, 5))
  {
  }

  /** Names that are not dates are refused: no year, a third day digit
      left over, a thirteenth month. */
  lemma NonDatesRejected()
    ensures ParseDate("notes") == None
    ensures ParseDate("2024-01-051") == None
    ensures ParseDate("2024-13-01") == None
  {
  }

  /** A day the month lacks is refused: 30 February. */
  lemma MissingDayRejected()
    ensures ParseDate("2024-02-30") == None
  {
  }

  /** 29 February is refused in a common year. */
  lemma CommonYearLeapDayRejected()
    ensures ParseDate("2023-02-29") == None
  {
  }

  /** Year 0 is refused. */
  lemma YearZeroRejected()
    ensures ParseDate("0000-01-01") == None
  {
  }
}
