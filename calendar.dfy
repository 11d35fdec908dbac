/**
  Civil-date arithmetic: the Gregorian leap rule and day counts of
  lib/dateUtils.ts, and the parts of JavaScript's `Date` that the calendar
  relies on (the constructor, `setDate`, `setMonth`, `getDay`), stated on
  civil (year, month, day) triples in the local time zone.
*/
module Calendar {

  /** A civil date. `month` runs 1..12; JavaScript's `getMonth()` is `month - 1`. */
  datatype Date = Date(year: int, month: int, day: int)

  /** The Gregorian leap-year rule. JavaScript's `%` truncates toward zero,
      but a remainder is zero under truncation exactly when it is zero under
      Dafny's Euclidean `%`, so the test reads the same for negative years. */
  predicate IsLeapYear(year: int): (leap: bool)
    ensures leap ==> year % 4 == 0
    ensures year % 4 == 0 && year % 100 != 0 ==> leap
    ensures year % 100 == 0 ==> (leap <==> year % 400 == 0)
  {
    (year % 4 == 0 && year % 100 != 0) || year % 400 == 0
  }

  function DaysInYear(year: int): (n: int)
    ensures n == 365 || n == 366
    ensures n == 366 <==> IsLeapYear(year)
  {
    if IsLeapYear(year) then 366 else 365
  }

  function DaysInMonth(year: int, month: int): (n: int)
    requires 1 <= month <= 12
    ensures 28 <= n <= 31
    ensures n == 29 <==> month == 2 && IsLeapYear(year)
    ensures n == 28 <==> month == 2 && !IsLeapYear(year)
  {
    if month == 2 then (if IsLeapYear(year) then 29 else 28)
    else if month == 4 || month == 6 || month == 9 || month == 11 then 30
    else 31
  }

  /** Days of a common year before the first of month i + 1. */
  const CommonYearCumulative: seq<int> := [0, 31, 59, 90, 120, 151, 181, 212, 243, 273, 304, 334, 365]

  /** Days of `year` that lie before the first of `month`; month 13 stands for the next January. */
  function DaysBeforeMonth(year: int, month: int): int
    requires 1 <= month <= 13
  {
    CommonYearCumulative[month - 1] + (if month > 2 && IsLeapYear(year) then 1 else 0)
  }

  /** Days from 0001-01-01 to the first of January of `year` (negative before year 1).
      Dafny's `/` by a positive constant is floor division, so the formula holds for every year. */
  function DaysBeforeYear(year: int): int {
    var p := year - 1;
    365 * p + p / 4 - p / 100 + p / 400
  }

  predicate ValidDate(d: Date) {
    1 <= d.month <= 12 && 1 <= d.day <= DaysInMonth(d.year, d.month)
  }

  /** The day number of a date: 0 is 0001-01-01 of the proleptic Gregorian calendar. */
  function ToDays(d: Date): (n: int)
    requires ValidDate(d)
    ensures DaysBeforeYear(d.year) <= n < DaysBeforeYear(d.year) + DaysInYear(d.year)
  {
    DaysBeforeYear(d.year) + DaysBeforeMonth(d.year, d.month) + d.day - 1
  }

  lemma MonthLength(year: int, month: int)
    requires 1 <= month <= 12
    ensures DaysBeforeMonth(year, month + 1) == DaysBeforeMonth(year, month) + DaysInMonth(year, month)
  {
  }

  /** The closed form counts exactly the days of each year: 366 after a leap year, 365 otherwise. */
  lemma YearLength(year: int)
    ensures DaysBeforeYear(year + 1) == DaysBeforeYear(year) + DaysInYear(year)
  {
    QuotientStep(year, 4);
    QuotientStep(year, 100);
    QuotientStep(year, 400);
    MultiplesNest(year);
  }

  /** A multiple of 400 is a multiple of 100, and a multiple of 100 a multiple of 4. */
  lemma MultiplesNest(year: int)
    ensures year % 400 == 0 ==> year % 100 == 0
    ensures year % 100 == 0 ==> year % 4 == 0
  {
    if year % 400 == 0 {
      MultipleOf(year, 4 * (year / 400), 100);
    }
    if year % 100 == 0 {
      MultipleOf(year, 25 * (year / 100), 4);
    }
  }

  lemma MultipleOf(n: int, q: int, k: int)
    requires k == 4 || k == 100
    requires n == k * q
    ensures n % k == 0
  {
    if k == 4 {
      assert (4 * q) % 4 == 0;
    } else {
      assert (100 * q) % 100 == 0;
    }
  }

  /** Going from `year - 1` to `year` raises the floor quotient by one exactly at a multiple. */
  lemma QuotientStep(year: int, k: int)
    requires k == 4 || k == 100 || k == 400
    ensures year / k == (year - 1) / k + (if year % k == 0 then 1 else 0)
  {
    if k == 4 {
      assert year / 4 == (year - 1) / 4 + (if year % 4 == 0 then 1 else 0);
    } else if k == 100 {
      assert year / 100 == (year - 1) / 100 + (if year % 100 == 0 then 1 else 0);
    } else {
      assert year / 400 == (year - 1) / 400 + (if year % 400 == 0 then 1 else 0);
    }
  }

  lemma {:induction false} DaysBeforeYearGrows(a: int, b: int)
    requires a < b
    ensures DaysBeforeYear(a) + DaysInYear(a) <= DaysBeforeYear(b)
    decreases b - a
  {
    YearLength(a);
    if a + 1 < b {
      DaysBeforeYearGrows(a + 1, b);
    }
  }

  lemma {:induction false} DaysBeforeMonthGrows(year: int, m1: int, m2: int)
    requires 1 <= m1 < m2 <= 13
    ensures DaysBeforeMonth(year, m1) + DaysInMonth(year, m1) <= DaysBeforeMonth(year, m2)
    decreases m2 - m1
  {
    MonthLength(year, m1);
    if m1 + 1 < m2 {
      DaysBeforeMonthGrows(year, m1 + 1, m2);
    }
  }

  /** Chronological order of civil dates: by year, then month, then day. */
  predicate Before(a: Date, b: Date) {
    a.year < b.year || (a.year == b.year && (a.month < b.month || (a.month == b.month && a.day < b.day)))
  }

  lemma BeforeHasFewerDays(a: Date, b: Date)
    requires ValidDate(a) && ValidDate(b) && Before(a, b)
    ensures ToDays(a) < ToDays(b)
  {
    if a.year < b.year {
      DaysBeforeYearGrows(a.year, b.year);
    } else if a.month < b.month {
      DaysBeforeMonthGrows(a.year, a.month, b.month);
    }
  }

  /** The day number orders dates exactly as the calendar does. */
  lemma BeforeIffFewerDays(a: Date, b: Date)
    requires ValidDate(a) && ValidDate(b)
    ensures Before(a, b) <==> ToDays(a) < ToDays(b)
  {
    if Before(a, b) {
      BeforeHasFewerDays(a, b);
    } else if a != b {
      BeforeHasFewerDays(b, a);
    }
  }

  /** Different dates have different day numbers. */
  lemma ToDaysInjective(a: Date, b: Date)
    requires ValidDate(a) && ValidDate(b) && ToDays(a) == ToDays(b)
    ensures a == b
  {
    if Before(a, b) {
      BeforeHasFewerDays(a, b);
    } else if a != b {
      BeforeHasFewerDays(b, a);
    }
  }

  /** A date whose day number lies inside the span of `year` belongs to `year`. */
  lemma YearOfDayNumber(d: Date, year: int)
    requires ValidDate(d)
    requires DaysBeforeYear(year) <= ToDays(d) < DaysBeforeYear(year) + DaysInYear(year)
    ensures d.year == year
  {
    if d.year < year {
      DaysBeforeYearGrows(d.year, year);
    } else if d.year > year {
      DaysBeforeYearGrows(year, d.year);
    }
  }

  function NextDay(d: Date): (r: Date)
    requires ValidDate(d)
    ensures ValidDate(r) && ToDays(r) == ToDays(d) + 1
  {
    if d.day < DaysInMonth(d.year, d.month) then Date(d.year, d.month, d.day + 1)
    else if d.month < 12 then MonthLength(d.year, d.month); Date(d.year, d.month + 1, 1)
    else YearLength(d.year); Date(d.year + 1, 1, 1)
  }

  function PrevDay(d: Date): (r: Date)
    requires ValidDate(d)
    ensures ValidDate(r) && ToDays(r) == ToDays(d) - 1
  {
    if d.day > 1 then Date(d.year, d.month, d.day - 1)
    else if d.month > 1 then
      MonthLength(d.year, d.month - 1);
      Date(d.year, d.month - 1, DaysInMonth(d.year, d.month - 1))
    else
      YearLength(d.year - 1);
      Date(d.year - 1, 12, 31)
  }

  /** The date `k` days after `d` (before it when `k` is negative). */
  function AddDays(d: Date, k: int): (r: Date)
    requires ValidDate(d)
    ensures ValidDate(r) && ToDays(r) == ToDays(d) + k
    decreases if k < 0 then -k else k
  {
    if k == 0 then d
    else if k > 0 then AddDays(NextDay(d), k - 1)
    else AddDays(PrevDay(d), k + 1)
  }

  /** Two valid dates `k` day numbers apart are related by AddDays. */
  lemma AddDaysFromDayNumbers(a: Date, b: Date, k: int)
    requires ValidDate(a) && ValidDate(b) && ToDays(b) == ToDays(a) + k
    ensures AddDays(a, k) == b
  {
    ToDaysInjective(AddDays(a, k), b);
  }

  /** ECMAScript's MakeDay followed by the civil breakdown of the result: year `y`,
      zero-based month `m0` (any integer, carried into the year by floor division)
      and day-of-month `dt` (any integer, carried across month ends). */
  function MakeDay(y: int, m0: int, dt: int): (r: Date)
    ensures ValidDate(r)
    ensures ToDays(r) == ToDays(Date(y + m0 / 12, m0 % 12 + 1, 1)) + dt - 1
    ensures 0 <= m0 < 12 && 1 <= dt <= DaysInMonth(y, m0 + 1) ==> r == Date(y, m0 + 1, dt)
  {
    var first := Date(y + m0 / 12, m0 % 12 + 1, 1);
    var r := AddDays(first, dt - 1);
    if 0 <= m0 < 12 && 1 <= dt <= DaysInMonth(y, m0 + 1) then
      assert m0 / 12 == 0 && m0 % 12 == m0;
      assert first == Date(y, m0 + 1, 1);
      DayOfMonthFromFirst(r, y, m0 + 1, dt);
      r
    else
      r
  }

  /** The date `dt - 1` days after the first of a month that has day `dt` is that day. */
  lemma DayOfMonthFromFirst(r: Date, y: int, m: int, dt: int)
    requires ValidDate(r) && 1 <= m <= 12 && 1 <= dt <= DaysInMonth(y, m)
    requires ToDays(r) == ToDays(Date(y, m, 1)) + dt - 1
    ensures r == Date(y, m, dt)
  {
    ToDaysInjective(r, Date(y, m, dt));
  }

  /** The `Date(year, monthIndex, day)` constructor reads a year 0..99 as 1900 + year. */
  function FullYear(year: int): (y: int)
    ensures year < 0 || 100 <= year ==> y == year
    ensures 0 <= year <= 99 ==> y == 1900 + year
  {
    if 0 <= year <= 99 then 1900 + year else year
  }

  /** `new Date(year, monthIndex, day)` at local midnight. */
  function NewDate(year: int, m0: int, dt: int): (r: Date)
    ensures ValidDate(r)
    ensures ToDays(r) == ToDays(Date(FullYear(year) + m0 / 12, m0 % 12 + 1, 1)) + dt - 1
  {
    MakeDay(FullYear(year), m0, dt)
  }

  /** `d.setDate(dt)`: keeps year and month, carries an out-of-range day. */
  function SetDate(d: Date, dt: int): (r: Date)
    requires ValidDate(d)
    ensures ValidDate(r) && ToDays(r) == ToDays(d) + dt - d.day
  {
    var m0 := d.month - 1;
    assert m0 / 12 == 0 && m0 % 12 == m0;
    MakeDay(d.year, m0, dt)
  }

  /** `d.setMonth(m0)`: keeps year (carrying an out-of-range month into it) and day-of-month. */
  function SetMonth(d: Date, m0: int): (r: Date)
    requires ValidDate(d)
    ensures ValidDate(r) && ToDays(r) == ToDays(Date(d.year + m0 / 12, m0 % 12 + 1, 1)) + d.day - 1
  {
    MakeDay(d.year, m0, d.day)
  }

  /** `getDay()`: 0 is Sunday .. 6 is Saturday; 0001-01-01 was a Monday. */
  function Weekday(d: Date): (w: int)
    requires ValidDate(d)
    ensures 0 <= w < 7
  {
    (ToDays(d) + 1) % 7
  }

  /** A week later is the same weekday. */
  lemma WeekdayAfterWeek(d: Date, later: Date)
    requires ValidDate(d) && ValidDate(later) && ToDays(later) == ToDays(d) + 7
    ensures Weekday(later) == Weekday(d)
  {
    var n := ToDays(d) + 1;
    assert (n + 7) % 7 == n % 7;
  }

  /** The next day is the next weekday, Saturday wrapping to Sunday. */
  lemma WeekdayNextDay(d: Date)
    requires ValidDate(d)
    ensures Weekday(NextDay(d)) == (Weekday(d) + 1) % 7
  {
    var e := NextDay(d);
    assert ToDays(e) + 1 == (ToDays(d) + 1) + 1;
    ModSevenShift(ToDays(d) + 1, 1);
  }

  /** Adding `k` commutes with taking the remainder by 7. */
  lemma ModSevenShift(n: int, k: int)
    ensures (n + k) % 7 == (n % 7 + k) % 7
  {
    var q := n / 7;
    assert n + k == 7 * q + (n % 7 + k);
    assert (7 * q + (n % 7 + k)) % 7 == (n % 7 + k) % 7;
  }

  /** Every date's weekday counted from Monday 2024-01-01: `k` day numbers
      later (earlier when negative) is weekday `(1 + k) mod 7`. */
  lemma WeekdayFromMonday(d: Date, k: int)
    requires ValidDate(d) && ToDays(d) == ToDays(Date(2024, 1, 1)) + k
    ensures Weekday(d) == (1 + k) % 7
  {
    WeekdayCalibration();
    var base := ToDays(Date(2024, 1, 1)) + 1;
    assert base % 7 == 1;
    ModSevenShift(base, k);
  }

  /** 1970-01-01 was a Thursday and 2024-01-01 a Monday. */
  lemma WeekdayCalibration()
    ensures Weekday(Date(1970, 1, 1)) == 4 && Weekday(Date(2024, 1, 1)) == 1
  {
  }

  /** The month after (`delta` = 1) or before (`delta` = -1) month `m` of year `y`. */
  function ShiftMonth(y: int, m: int, delta: int): (r: (int, int))
    requires 1 <= m <= 12 && (delta == 1 || delta == -1)
    ensures 1 <= r.1 <= 12
    ensures delta == 1 ==> r == (if m == 12 then (y + 1, 1) else (y, m + 1))
    ensures delta == -1 ==> r == (if m == 1 then (y - 1, 12) else (y, m - 1))
  {
    (y + (m - 1 + delta) / 12, (m - 1 + delta) % 12 + 1)
  }

  /** The first of the next month is DaysInMonth days after the first of this one. */
  lemma FirstOfNextMonth(y: int, m: int)
    requires 1 <= m <= 12
    ensures var (ny, nm) := ShiftMonth(y, m, 1);
      ToDays(Date(ny, nm, 1)) == ToDays(Date(y, m, 1)) + DaysInMonth(y, m)
  {
    if m == 12 {
      YearLength(y);
    } else {
      MonthLength(y, m);
    }
  }
}
