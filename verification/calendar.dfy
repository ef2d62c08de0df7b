/** `dayofweek(year, month, day)` of gps_interface.py: Zeller's
    congruence, Gregorian for years after 1582 and Julian before, mapped
    to Python's weekday numbering (Monday 0 … Sunday 6). */
module Calendar {

  /** `int(a / b)` on floats for a positive divisor: the quotient
      truncated toward zero. */
  function TruncDiv(a: int, b: int): int
    requires b > 0
  {
    if a >= 0 then a / b else -((-a) / b)
  }

  datatype Date = Date(year: int, month: int, day: int)

  /** The month and year the congruence works with: January and February
      are months 13 and 14 of the previous year. */
  function Shifted(dt: Date): Date
  {
    if dt.month == 1 then Date(dt.year - 1, 13, dt.day)
    else if dt.month == 2 then Date(dt.year - 1, 14, dt.day)
    else dt
  }

  /** The body of `dayofweek` after the shift, on the shifted date `s`, in
      the calendar `gregorian` selects: `rem`, `div`, `f`, then `fg` or
      `fdiv` modulo 7, a 0 replaced by 7, and `(h + 5) % 7`. */
  function Zeller(s: Date, gregorian: bool): (r: int)
    ensures 0 <= r < 7
  {
    var rem := s.year % 100;
    var div := s.year / 100;
    var f := s.day + TruncDiv(13 * (s.month + 1), 5) + rem + TruncDiv(rem, 4);
    var fg := f + TruncDiv(div, 4) - 2 * div;
    var fdiv := f + 5 - div;
    var h := if gregorian then fg % 7 else fdiv % 7;
    var h' := if h == 0 then 7 else h;
    (h' + 5) % 7
  }

  /** `dayofweek(year, month, day)`: the calendar is chosen by the SHIFTED
      year, so January and February 1583 are taken as Julian dates. */
  function DayOfWeek(year: int, month: int, day: int): (r: int)
    ensures 0 <= r < 7
  {
    var s := Shifted(Date(year, month, day));
    Zeller(s, s.year > 1582)
  }

  /** `dayofweek` with the calendar chosen by the year as given, so that
      every date from 1 January 1583 on is Gregorian. */
  function DayOfWeekFixed(year: int, month: int, day: int): (r: int)
    ensures 0 <= r < 7
  {
    Zeller(Shifted(Date(year, month, day)), year > 1582)
  }

  // A reference calendar, to state what the congruence computes.

  predicate IsLeap(y: int, gregorian: bool)
  {
    if gregorian then (y % 4 == 0 && y % 100 != 0) || y % 400 == 0 else y % 4 == 0
  }

  function DaysInMonth(y: int, m: int, gregorian: bool): int
    requires 1 <= m <= 12
  {
    if m == 2 then (if IsLeap(y, gregorian) then 29 else 28)
    else if m == 4 || m == 6 || m == 9 || m == 11 then 30
    else 31
  }

  predicate IsDate(dt: Date, gregorian: bool)
  {
    1 <= dt.month <= 12 && 1 <= dt.day <= DaysInMonth(dt.year, dt.month, gregorian)
  }

  /** The next day in the calendar `gregorian` selects. */
  function Tomorrow(dt: Date, gregorian: bool): (t: Date)
    requires IsDate(dt, gregorian)
    ensures IsDate(t, gregorian)
  {
    if dt.day < DaysInMonth(dt.year, dt.month, gregorian) then dt.(day := dt.day + 1)
    else if dt.month < 12 then Date(dt.year, dt.month + 1, 1)
    else Date(dt.year + 1, 1, 1)
  }

  /** The month's share of `f`. */
  function MonthTerm(x: int): int
  {
    TruncDiv(13 * (x + 1), 5)
  }

  /** The year's share of `fg` (Gregorian) or `fdiv` (Julian). */
  function YearTerm(y: int, gregorian: bool): int
  {
    var rem, div := y % 100, y / 100;
    rem + TruncDiv(rem, 4) + (if gregorian then TruncDiv(div, 4) - 2 * div else 5 - div)
  }

  /** Replacing an `h` of 0 by 7 changes nothing: the result is the plain
      sum of day, month and year terms, shifted by 5, modulo 7. */
  lemma ZellerAsSum(s: Date, gregorian: bool)
    ensures Zeller(s, gregorian) == (s.day + MonthTerm(s.month) + YearTerm(s.year, gregorian) + 5) % 7
  {
    var sum := s.day + MonthTerm(s.month) + YearTerm(s.year, gregorian);
    var h := sum % 7;
    assert (if gregorian then s.day + MonthTerm(s.month) + YearTerm(s.year, true)
            else s.day + MonthTerm(s.month) + YearTerm(s.year, false)) == sum;
    SevenForZero(h, sum);
  }

  lemma SevenForZero(h: int, sum: int)
    requires h == sum % 7
    ensures ((if h == 0 then 7 else h) + 5) % 7 == (sum + 5) % 7
  {
    var q := sum / 7;
    assert sum == 7 * q + h;
    assert sum + 5 == 7 * q + (h + 5);
  }

  /** From one month to the next within a shifted year (March to
      January), the month term grows by the length of the month minus 28. */
  lemma MonthStep(x: int)
    requires 3 <= x <= 13
    ensures MonthTerm(x + 1) - MonthTerm(x) == DaysInMonth(0, if x == 13 then 1 else x, true) - 28
  {
  }

  /** From one year to the next the year term grows by one, one more in a
      leap year, less a multiple of 7 at a century. */
  lemma YearStep(y: int, gregorian: bool)
    requires y >= 1
    ensures YearTerm(y, gregorian) - YearTerm(y - 1, gregorian) ==
      (if y % 100 == 0 then -126 else 0) + 1 + (if IsLeap(y, gregorian) then 1 else 0)
  {
    var c, r := y / 100, y % 100;
    assert y == 100 * c + r;
    if r == 0 {
      YearStepCentury(y, c, gregorian);
    } else {
      YearStepWithin(y, c, r, gregorian);
    }
  }

  /** `YearStep` from the last year of a century to the next. */
  lemma YearStepCentury(y: int, c: int, gregorian: bool)
    requires c >= 1 && y == 100 * c
    ensures YearTerm(y, gregorian) - YearTerm(y - 1, gregorian) ==
      -126 + 1 + (if IsLeap(y, gregorian) then 1 else 0)
  {
    YearTermOf(y, c, 0, gregorian);
    YearTermOf(y - 1, c - 1, 99, gregorian);
    var q, k := c / 4, c % 4;
    Quotient4(y, 25 * c, 0);
    Quotient400(y, q, 100 * k);
    if k == 0 {
      Quotient4(c - 1, q - 1, 3);
    } else {
      Quotient4(c - 1, q, k - 1);
    }
  }

  /** `YearStep` within a century. */
  lemma YearStepWithin(y: int, c: int, r: int, gregorian: bool)
    requires c >= 0 && 1 <= r < 100 && y == 100 * c + r
    ensures YearTerm(y, gregorian) - YearTerm(y - 1, gregorian) ==
      1 + (if IsLeap(y, gregorian) then 1 else 0)
  {
    YearTermOf(y, c, r, gregorian);
    YearTermOf(y - 1, c, r - 1, gregorian);
    var q, k := r / 4, r % 4;
    Quotient4(y, 25 * c + q, k);
    Quotient400(y, y / 400, y % 400);
    if y % 400 == 0 {
      Quotient100(y, 4 * (y / 400), 0);
    }
    if k == 0 {
      Quotient4(r - 1, q - 1, 3);
    } else {
      Quotient4(r - 1, q, k - 1);
    }
  }

  /** The year term of a year written as century and year in it. */
  lemma YearTermOf(y: int, c: int, r: int, gregorian: bool)
    requires c >= 0 && 0 <= r < 100 && y == 100 * c + r
    ensures YearTerm(y, gregorian) == r + r / 4 + (if gregorian then c / 4 - 2 * c else 5 - c)
  {
    Quotient100(y, c, r);
  }

  lemma Quotient4(y: int, q: int, r: int)
    requires y == 4 * q + r && 0 <= r < 4
    ensures y / 4 == q && y % 4 == r
  {
  }

  lemma Quotient100(y: int, q: int, r: int)
    requires y == 100 * q + r && 0 <= r < 100
    ensures y / 100 == q && y % 100 == r
  {
  }

  lemma Quotient400(y: int, q: int, r: int)
    requires y == 400 * q + r && 0 <= r < 400
    ensures y / 400 == q && y % 400 == r
  {
  }

  lemma ModStep(a: int, b: int, k: int)
    requires a == b + 1 + 7 * k
    ensures (a + 5) % 7 == ((b + 5) % 7 + 1) % 7
  {
    var q := (b + 5) / 7;
    assert b + 5 == 7 * q + (b + 5) % 7;
    assert a + 5 == 7 * (q + k) + ((b + 5) % 7 + 1);
  }

  /** The sum the congruence reduces modulo 7, on a shifted date. */
  function DaySum(s: Date, gregorian: bool): int
  {
    s.day + MonthTerm(s.month) + YearTerm(s.year, gregorian)
  }

  /** In either calendar, from year 1 on, the congruence advances by one
      weekday from each day to the next, across month and year ends and
      leap days. */
  lemma {:induction false} ZellerAdvances(dt: Date, gregorian: bool)
    requires IsDate(dt, gregorian) && dt.year >= 1
    ensures Zeller(Shifted(Tomorrow(dt, gregorian)), gregorian) == (Zeller(Shifted(dt), gregorian) + 1) % 7
  {
    var s, t := Shifted(dt), Shifted(Tomorrow(dt, gregorian));
    ZellerAsSum(s, gregorian);
    ZellerAsSum(t, gregorian);
    var k := SumAdvances(dt, gregorian);
    ModStep(DaySum(t, gregorian), DaySum(s, gregorian), k);
  }

  /** The sum grows by one from a day to the next, up to whole weeks. */
  lemma SumAdvances(dt: Date, gregorian: bool) returns (k: int)
    requires IsDate(dt, gregorian) && dt.year >= 1
    ensures DaySum(Shifted(Tomorrow(dt, gregorian)), gregorian) == DaySum(Shifted(dt), gregorian) + 1 + 7 * k
  {
    if dt.day < DaysInMonth(dt.year, dt.month, gregorian) {
      k := 0;
    } else if dt.month == 2 {
      k := EndOfFebruary(dt, gregorian);
    } else {
      EndOfMonth(dt, gregorian);
      k := -4;
    }
  }

  /** The last day of any other month stays within the shifted year. */
  lemma EndOfMonth(dt: Date, gregorian: bool)
    requires IsDate(dt, gregorian) && dt.month != 2
    requires dt.day == DaysInMonth(dt.year, dt.month, gregorian)
    ensures DaySum(Shifted(Tomorrow(dt, gregorian)), gregorian) == DaySum(Shifted(dt), gregorian) + 1 - 28
  {
    var s, t := Shifted(dt), Shifted(Tomorrow(dt, gregorian));
    assert t.year == s.year && t.month == s.month + 1 && t.day == 1;
    MonthStep(s.month);
  }

  /** The last day of February is the last day of a shifted year. */
  lemma EndOfFebruary(dt: Date, gregorian: bool) returns (k: int)
    requires IsDate(dt, gregorian) && dt.year >= 1 && dt.month == 2
    requires dt.day == DaysInMonth(dt.year, 2, gregorian)
    ensures DaySum(Shifted(Tomorrow(dt, gregorian)), gregorian) == DaySum(Shifted(dt), gregorian) + 1 + 7 * k
  {
    assert Shifted(dt) == Date(dt.year - 1, 14, dt.day);
    assert Shifted(Tomorrow(dt, gregorian)) == Date(dt.year, 3, 1);
    YearStep(dt.year, gregorian);
    assert MonthTerm(3) == 10 && MonthTerm(14) == 39;
    k := if dt.year % 100 == 0 then -26 else -8;
  }

  /** `dayofweek` as written advances by one weekday per Gregorian day from
      1 March 1583 on. */
  lemma DayOfWeekAdvances(dt: Date)
    requires IsDate(dt, true) && (dt.year > 1583 || (dt.year == 1583 && dt.month >= 3))
    ensures var t := Tomorrow(dt, true);
      DayOfWeek(t.year, t.month, t.day) == (DayOfWeek(dt.year, dt.month, dt.day) + 1) % 7
  {
    var t := Tomorrow(dt, true);
    assert Date(dt.year, dt.month, dt.day) == dt && Date(t.year, t.month, t.day) == t;
    ZellerAdvances(dt, true);
  }

  /** … and by one weekday per Julian day up to 28 February 1583. */
  lemma DayOfWeekAdvancesJulian(dt: Date)
    requires IsDate(dt, false) && dt.year >= 1
    requires dt.year < 1583 || (dt.year == 1583 && (dt.month == 1 || (dt.month == 2 && dt.day < 28)))
    ensures var t := Tomorrow(dt, false);
      DayOfWeek(t.year, t.month, t.day) == (DayOfWeek(dt.year, dt.month, dt.day) + 1) % 7
  {
    var t := Tomorrow(dt, false);
    assert Date(dt.year, dt.month, dt.day) == dt && Date(t.year, t.month, t.day) == t;
    ZellerAdvances(dt, false);
  }

  /** As written, 1 January to 28 February 1583 get the weekday of the
      Julian date of that name, three weekdays (ten days) after the
      Gregorian one. */
  lemma DayOfWeekEarly1583(month: int, day: int)
    requires IsDate(Date(1583, month, day), true) && month <= 2
    ensures DayOfWeek(1583, month, day) == (DayOfWeekFixed(1583, month, day) + 3) % 7
  {
    var s := Shifted(Date(1583, month, day));
    assert s == Date(1582, month + 12, day);
    ZellerAsSum(s, true);
    ZellerAsSum(s, false);
    YearTermsOf1582();
    var b := day + MonthTerm(month + 12) + 75;
    var r := (b + 5) % 7;
    assert DayOfWeek(1583, month, day) == Zeller(s, false) == (b + 5 + 17) % 7;
    assert DayOfWeekFixed(1583, month, day) == Zeller(s, true) == r;
    ModShift(b + 5, 17);
    AddWeeks(r + 3, 2);
  }

  lemma AddWeeks(x: int, k: int)
    ensures (x + 7 * k) % 7 == x % 7
  {
    ModShift(x, 7 * k);
    assert x % 7 + 7 * k == 7 * k + x % 7;
  }

  lemma YearTermsOf1582()
    ensures YearTerm(1582, true) == 75 && YearTerm(1582, false) == 92
  {
  }

  lemma ModShift(x: int, k: int)
    ensures (x + k) % 7 == (x % 7 + k) % 7
  {
    var q := x / 7;
    assert x == 7 * q + x % 7;
    assert x + k == 7 * q + (x % 7 + k);
  }

  /** As written, the step from 28 February to 1 March 1583 (not a leap
      year) moves from Thursday back to Tuesday. */
  lemma CutoverSkips()
    ensures DayOfWeek(1583, 2, 28) == 3 && DayOfWeek(1583, 3, 1) == 1
    ensures DayOfWeek(1583, 3, 1) != (DayOfWeek(1583, 2, 28) + 1) % 7
  {
    assert Shifted(Date(1583, 2, 28)) == Date(1582, 14, 28);
    ZellerAsSum(Date(1582, 14, 28), false);
    assert MonthTerm(14) == 39 && YearTerm(1582, false) == 92;
    ZellerAsSum(Date(1583, 3, 1), true);
    assert MonthTerm(3) == 10 && YearTerm(1583, true) == 76;
  }

  /** With the calendar chosen by the year as given, the weekday advances
      by one per day everywhere from year 1 on except across the change of
      calendar itself (31 December 1582 to 1 January 1583). */
  lemma DayOfWeekFixedAdvances(dt: Date)
    requires IsDate(dt, dt.year > 1582) && dt.year >= 1
    requires dt != Date(1582, 12, 31)
    ensures var t := Tomorrow(dt, dt.year > 1582);
      DayOfWeekFixed(t.year, t.month, t.day) == (DayOfWeekFixed(dt.year, dt.month, dt.day) + 1) % 7
  {
    var g := dt.year > 1582;
    var t := Tomorrow(dt, g);
    assert Date(dt.year, dt.month, dt.day) == dt && Date(t.year, t.month, t.day) == t;
    assert (t.year > 1582) == g;
    ZellerAdvances(dt, g);
  }

  /** GPS week 0 began on Sunday 6 January 1980. */
  lemma GpsEpochIsSunday()
    ensures DayOfWeek(1980, 1, 6) == 6 && DayOfWeekFixed(1980, 1, 6) == 6
  {
    assert Shifted(Date(1980, 1, 6)) == Date(1979, 13, 6);
    ZellerAsSum(Date(1979, 13, 6), true);
    assert MonthTerm(13) == 36 && YearTerm(1979, true) == 64;
  }
}
