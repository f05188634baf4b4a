/** Calendar dates in the extended complete form `YYYY-MM-DD` of section
    4.1.2.2 of ISO 8601:2004 (what `strptime(s, "%Y-%m-%d")` reads), and the
    weekday that Python's `date.weekday()` gives them: Monday is 0, Sunday 6,
    in the proleptic Gregorian calendar. */
module Calendar {

  predicate IsDigit(c: char)
  {
    '0' <= c <= '9'
  }

  predicate AllDigits(s: string)
  {
    forall i :: 0 <= i < |s| ==> IsDigit(s[i])
  }

  function Pow10(k: nat): (p: nat)
    ensures p >= 1
  {
    if k == 0 then 1 else 10 * Pow10(k - 1)
  }

  /** The number a string of decimal digits denotes: it has no more digits
      than the string, so it is below 10 to the power of its length. */
  function Number(s: string): (n: nat)
    requires AllDigits(s)
    ensures n < Pow10(|s|)
  {
    if |s| == 0 then 0
    else 10 * Number(s[..|s| - 1]) + ((s[|s| - 1] as int) - ('0' as int))
  }

  predicate IsLeapYear(y: int)
  {
    y % 4 == 0 && (y % 100 != 0 || y % 400 == 0)
  }

  function DaysInMonth(y: int, m: int): (n: int)
    requires 1 <= m <= 12
    ensures 28 <= n <= 31
    ensures n == 29 <==> m == 2 && IsLeapYear(y)
  {
    if m == 2 then (if IsLeapYear(y) then 29 else 28)
    else if m == 4 || m == 6 || m == 9 || m == 11 then 30
    else 31
  }

  predicate IsValidDay(y: int, m: int, d: int)
  {
    1 <= y && 1 <= m <= 12 && 1 <= d <= DaysInMonth(y, m)
  }

  /** A well-formed `YYYY-MM-DD` string naming a real day. */
  predicate IsCalendarDate(s: string)
  {
    && |s| == 10 && s[4] == '-' && s[7] == '-'
    && AllDigits(s[..4]) && AllDigits(s[5..7]) && AllDigits(s[8..])
    && IsValidDay(Number(s[..4]), Number(s[5..7]), Number(s[8..]))
  }

  function Year(s: string): int
    requires IsCalendarDate(s)
  {
    Number(s[..4])
  }

  function Month(s: string): int
    requires IsCalendarDate(s)
  {
    Number(s[5..7])
  }

  function Day(s: string): int
    requires IsCalendarDate(s)
  {
    Number(s[8..])
  }

  /** Days from 1970-01-01 to the given day, counted in the proleptic
      Gregorian calendar (the days-from-civil computation over 400-year eras
      whose years start on 1 March): 1970-01-01 is day 0. */
  function DaysFromCivil(y: int, m: int, d: int): (days: int)
    requires 1 <= m <= 12
    ensures y == 1970 && m == 1 ==> days == d - 1
  {
    var yy := if m <= 2 then y - 1 else y;
    var mp := if m > 2 then m - 3 else m + 9;
    YearStart(yy) + MonthStart(mp) + d - 1 - 719468
  }

  /** Days from 1 March of year 0 to 1 March of year `yy`. */
  function YearStart(yy: int): int
  {
    var era := yy / 400;
    var yoe := yy - era * 400;
    era * 146097 + yoe * 365 + yoe / 4 - yoe / 100
  }

  /** Days from 1 March to the first day of the `mp`-th month after March. */
  function MonthStart(mp: int): int
    requires 0 <= mp < 12
  {
    (153 * mp + 2) / 5
  }

  /** The day after a valid day. */
  function NextDay(y: int, m: int, d: int): (r: (int, int, int))
    requires IsValidDay(y, m, d)
    ensures IsValidDay(r.0, r.1, r.2)
  {
    if d < DaysInMonth(y, m) then (y, m, d + 1)
    else if m < 12 then (y, m + 1, 1)
    else (y + 1, 1, 1)
  }

  /** The day count agrees with the month lengths: every next day is
      exactly one day later. */
  lemma NextDayIsOneLater(y: int, m: int, d: int)
    requires IsValidDay(y, m, d)
    ensures var (y', m', d') := NextDay(y, m, d); DaysFromCivil(y', m', d') == DaysFromCivil(y, m, d) + 1
  {
    if d == DaysInMonth(y, m) {
      if m == 2 {
        EndOfFebruary(y, d);
      } else {
        EndOfOtherMonth(y, m, d);
      }
    }
  }

  lemma EndOfOtherMonth(y: int, m: int, d: int)
    requires 1 <= m <= 12 && m != 2 && d == DaysInMonth(y, m)
    ensures var (y', m', d') := if m < 12 then (y, m + 1, 1) else (y + 1, 1, 1);
      DaysFromCivil(y', m', d') == DaysFromCivil(y, m, d) + 1
  {
    if m == 1 {
      MonthLengths(10);
      assert DaysFromCivil(y, 2, 1) == YearStart(y - 1) + MonthStart(11) - 719468;
      assert DaysFromCivil(y, 1, d) == YearStart(y - 1) + MonthStart(10) + d - 1 - 719468;
    } else if m == 12 {
      MonthLengths(9);
      assert DaysFromCivil(y + 1, 1, 1) == YearStart(y) + MonthStart(10) - 719468;
      assert DaysFromCivil(y, 12, d) == YearStart(y) + MonthStart(9) + d - 1 - 719468;
    } else {
      MonthLengths(m - 3);
      assert DaysFromCivil(y, m + 1, 1) == YearStart(y) + MonthStart(m - 2) - 719468;
      assert DaysFromCivil(y, m, d) == YearStart(y) + MonthStart(m - 3) + d - 1 - 719468;
    }
  }

  /** The start of each March-based month in the days-from-civil formula:
      consecutive starts are one month length apart (February, the last,
      excepted). */
  lemma MonthLengths(mp: int)
    requires 0 <= mp < 11
    ensures MonthStart(mp + 1) - MonthStart(mp)
            == if mp == 1 || mp == 3 || mp == 6 || mp == 8 then 30 else 31
  {
  }

  lemma EndOfFebruary(y: int, d: int)
    requires d == DaysInMonth(y, 2)
    ensures DaysFromCivil(y, 3, 1) == DaysFromCivil(y, 2, d) + 1
  {
    var era := (y - 1) / 400;
    var yoe := (y - 1) - era * 400;
    var feb := era * 146097 + yoe * 365 + yoe / 4 - yoe / 100 + 336 + d - 719468;
    assert DaysFromCivil(y, 2, d) == feb;
    if yoe == 399 {
      LeapAtEraEnd(y, era);
      assert y / 400 == era + 1 by { DivisionByEra(y, era + 1, 0); }
      assert DaysFromCivil(y, 3, 1) == (era + 1) * 146097 - 719468;
    } else {
      assert y / 400 == era by { DivisionByEra(y, era, yoe + 1); }
      LeapWithinEra(y, era, yoe + 1);
      StepQuotients(yoe);
      assert DaysFromCivil(y, 3, 1) == era * 146097 + (yoe + 1) * 365 + (yoe + 1) / 4 - (yoe + 1) / 100 - 719468;
    }
  }

  lemma DivisionByEra(y: int, era: int, yoe: int)
    requires y == era * 400 + yoe && 0 <= yoe < 400
    ensures y / 400 == era
  {
  }

  lemma LeapAtEraEnd(y: int, era: int)
    requires y - 1 == era * 400 + 399
    ensures IsLeapYear(y) && DaysInMonth(y, 2) == 29
  {
    assert y == (era + 1) * 400;
  }

  lemma LeapWithinEra(y: int, era: int, k: int)
    requires y == era * 400 + k && 1 <= k < 400
    ensures IsLeapYear(y) <==> k % 4 == 0 && k % 100 != 0
  {
    ModOfMultiple(y, 4, era * 100, k);
    ModOfMultiple(y, 100, era * 4, k);
    ModOfMultiple(y, 400, era, k);
  }

  lemma ModOfMultiple(y: int, m: int, q: int, k: int)
    requires m == 4 || m == 100 || m == 400
    requires y == m * q + k && 0 <= k < 400
    ensures y % m == k % m
  {
    if m == 4 {
      Mod4Shift(q, k);
    } else if m == 100 {
      Mod100Shift(q, k);
    } else {
      Mod400Shift(q, k);
    }
  }

  lemma Mod4Shift(q: int, k: int)
    requires 0 <= k
    ensures (4 * q + k) % 4 == k % 4
  {
    var t, r := k / 4, k % 4;
    assert 4 * q + k == 4 * (q + t) + r;
  }

  lemma Mod100Shift(q: int, k: int)
    requires 0 <= k
    ensures (100 * q + k) % 100 == k % 100
  {
    var t, r := k / 100, k % 100;
    assert 100 * q + k == 100 * (q + t) + r;
  }

  lemma Mod400Shift(q: int, k: int)
    requires 0 <= k < 400
    ensures (400 * q + k) % 400 == k
  {
  }

  lemma StepQuotients(yoe: int)
    requires 0 <= yoe < 399
    ensures (yoe + 1) / 4 == yoe / 4 + (if (yoe + 1) % 4 == 0 then 1 else 0)
    ensures (yoe + 1) / 100 == yoe / 100 + (if (yoe + 1) % 100 == 0 then 1 else 0)
  {
  }

  /** `weekday()` of the day that lies `days` after 1970-01-01, a Thursday. */
  function WeekdayOfDayNumber(days: int): (w: int)
    ensures 0 <= w < 7
    ensures (w - days - 3) % 7 == 0
  {
    (days + 3) % 7
  }

  /** `datetime.strptime(s, "%Y-%m-%d").weekday()`. */
  function Weekday(s: string): (w: int)
    requires IsCalendarDate(s)
    ensures 0 <= w < 7
  {
    WeekdayOfDayNumber(DaysFromCivil(Year(s), Month(s), Day(s)))
  }

  /** Consecutive days have consecutive weekdays, Sunday (6) being followed
      by Monday (0). */
  lemma NextDayNextWeekday(y: int, m: int, d: int)
    requires IsValidDay(y, m, d)
    ensures var (y', m', d') := NextDay(y, m, d);
      WeekdayOfDayNumber(DaysFromCivil(y', m', d')) == (WeekdayOfDayNumber(DaysFromCivil(y, m, d)) + 1) % 7
  {
    NextDayIsOneLater(y, m, d);
    WeekdayStep(DaysFromCivil(y, m, d));
  }

  lemma WeekdayStep(days: int)
    ensures WeekdayOfDayNumber(days + 1) == (WeekdayOfDayNumber(days) + 1) % 7
  {
  }

  /** 6 January 2020 was a Monday. */
  lemma FirstMondayOf2020()
    ensures IsCalendarDate("2020-01-06") && Weekday("2020-01-06") == 0
  {
    var s := "2020-01-06";
    assert s[..4] == "2020";
    assert s[5..7] == "01";
    assert s[8..] == "06";
    assert Number("2020") == 2020 by {
      assert "2020"[..3] == "202" && "202"[..2] == "20" && "20"[..1] == "2" && "2"[..0] == "";
    }
    assert Number("01") == 1 by {
      assert "01"[..1] == "0" && "0"[..0] == "";
    }
    assert Number("06") == 6 by {
      assert "06"[..1] == "0" && "0"[..0] == "";
    }
    assert YearStart(2019) == 737424;
    assert MonthStart(10) == 306;
    assert DaysFromCivil(2020, 1, 6) == 18267;
  }
}
