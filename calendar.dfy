/** Proleptic Gregorian calendar arithmetic on local dates without a time of day.
    A date is a year, a zero-based month (0 = January, as JavaScript's getMonth
    returns it) and a one-based day of the month. */
module Calendar {

  datatype Date = Date(year: int, month: nat, day: nat)

  predicate IsLeapYear(y: int) {
    y % 4 == 0 && (y % 100 != 0 || y % 400 == 0)
  }

  /** Length of month m of year y; months outside 0..11 are never asked for by
      a valid date and get 31. */
  function DaysInMonth(y: int, m: nat): (n: nat)
    ensures 28 <= n <= 31
    ensures m == 1 ==> (n == 29 <==> IsLeapYear(y))
  {
    if m == 1 then (if IsLeapYear(y) then 29 else 28)
    else if m == 3 || m == 5 || m == 8 || m == 10 then 30
    else 31
  }

  predicate ValidDate(d: Date) {
    d.month < 12 && 1 <= d.day <= DaysInMonth(d.year, d.month)
  }

  /** The date one day earlier: JavaScript's setDate(getDate() - 1). */
  function PrevDay(d: Date): Date {
    if d.day > 1 then Date(d.year, d.month, d.day - 1)
    else if d.month > 0 then Date(d.year, d.month - 1, DaysInMonth(d.year, d.month - 1))
    else Date(d.year - 1, 11, 31)
  }

  /** The date one day later: JavaScript's setDate(getDate() + 1). */
  function NextDay(d: Date): Date {
    if d.day < DaysInMonth(d.year, d.month) then Date(d.year, d.month, d.day + 1)
    else if d.month < 11 then Date(d.year, d.month + 1, 1)
    else Date(d.year + 1, 0, 1)
  }

  /** Number of days from 1 January of year 1 to 1 January of year y. */
  function DaysBeforeYear(y: int): int {
    365 * (y - 1) + (y - 1) / 4 - (y - 1) / 100 + (y - 1) / 400
  }

  /** Number of days from 1 January of year y to the first of month m. */
  function DaysBeforeMonth(y: int, m: nat): nat
    decreases m
  {
    if m == 0 then 0 else DaysBeforeMonth(y, m - 1) + DaysInMonth(y, m - 1)
  }

  /** Day number counted from 1 January of year 1 (day 0). */
  function DayNumber(d: Date): int {
    DaysBeforeYear(d.year) + DaysBeforeMonth(d.year, d.month) + d.day - 1
  }

  /** Day of the week as JavaScript's getDay gives it: 0 is Sunday.
      1 January of year 1 was a Monday in the proleptic Gregorian calendar. */
  function Weekday(d: Date): (w: nat)
    ensures w < 7
  {
    (DayNumber(d) + 1) % 7
  }

  /** The year the multi-argument `Date` constructor uses: it reads a year
      0..99 as 1900..1999 and takes any other year as given. */
  function ConstructorYear(y: int): int {
    if 0 <= y <= 99 then 1900 + y else y
  }

  /** Weekday agrees with getDay: 1 January 1970 was a Thursday, 1 March 2024
      a Friday and 1 January 2000 a Saturday. */
  lemma {:induction false} WeekdayAnchors()
    ensures Weekday(Date(1970, 0, 1)) == 4
    ensures Weekday(Date(2024, 2, 1)) == 5
    ensures Weekday(Date(2000, 0, 1)) == 6
  {
  }

  /** Going from x to x + 1 adds one to x / k exactly when k divides x + 1,
      for the three divisors of the leap-year rule. */
  lemma {:induction false} DivStep4(x: int)
    ensures (x + 1) / 4 - x / 4 == if (x + 1) % 4 == 0 then 1 else 0
  {
  }

  lemma {:induction false} DivStep100(x: int)
    ensures (x + 1) / 100 - x / 100 == if (x + 1) % 100 == 0 then 1 else 0
  {
  }

  lemma {:induction false} DivStep400(x: int)
    ensures (x + 1) / 400 - x / 400 == if (x + 1) % 400 == 0 then 1 else 0
  {
  }

  /** Every multiple of 400 is a multiple of 100. */
  lemma {:induction false} Multiple400(y: int)
    requires y % 400 == 0
    ensures y % 100 == 0
  {
    var q := y / 400;
    assert y == 100 * (4 * q);
  }

  /** Every multiple of 100 is a multiple of 4. */
  lemma {:induction false} Multiple100(y: int)
    requires y % 100 == 0
    ensures y % 4 == 0
  {
    var q := y / 100;
    assert y == 4 * (25 * q);
  }

  /** A year has 366 days exactly when it is a leap year. */
  lemma {:induction false} YearLength(y: int)
    ensures DaysBeforeYear(y + 1) - DaysBeforeYear(y)
            == if IsLeapYear(y) then 366 else 365
  {
    DivStep4(y - 1);
    DivStep100(y - 1);
    DivStep400(y - 1);
    if y % 400 == 0 {
      Multiple400(y);
    }
    if y % 100 == 0 {
      Multiple100(y);
    }
  }

  lemma {:induction false} DaysBeforeDecember(y: int)
    ensures DaysBeforeMonth(y, 11) == if IsLeapYear(y) then 335 else 334
  {
  }

  /** The first of the month that follows month m of year y lies DaysInMonth
      days after the first of month m, across a year boundary too. */
  lemma {:induction false} MonthLength(y: int, m: nat)
    requires m < 12
    ensures DayNumber(if m < 11 then Date(y, m + 1, 1) else Date(y + 1, 0, 1))
            == DayNumber(Date(y, m, 1)) + DaysInMonth(y, m)
  {
    if m == 11 {
      YearLength(y);
      DaysBeforeDecember(y);
    }
  }

  /** PrevDay stays within valid dates and goes back exactly one day
      number. */
  lemma {:induction false} PrevDayStep(d: Date)
    requires ValidDate(d)
    ensures ValidDate(PrevDay(d))
    ensures DayNumber(PrevDay(d)) == DayNumber(d) - 1
  {
    if d.day == 1 && d.month > 0 {
      PrevDayAcrossMonth(d);
    } else if d.day == 1 {
      PrevDayAcrossYear(d);
    }
  }

  lemma {:induction false} PrevDayAcrossMonth(d: Date)
    requires ValidDate(d) && d.day == 1 && d.month > 0
    ensures ValidDate(PrevDay(d))
    ensures DayNumber(PrevDay(d)) == DayNumber(d) - 1
  {
    var p := Date(d.year, d.month - 1, DaysInMonth(d.year, d.month - 1));
    assert PrevDay(d) == p;
    MonthLength(d.year, d.month - 1);
    assert DayNumber(p) == DayNumber(Date(d.year, d.month - 1, 1)) + p.day - 1;
  }

  lemma {:induction false} PrevDayAcrossYear(d: Date)
    requires ValidDate(d) && d.day == 1 && d.month == 0
    ensures ValidDate(PrevDay(d))
    ensures DayNumber(PrevDay(d)) == DayNumber(d) - 1
  {
    var p := Date(d.year - 1, 11, 31);
    assert PrevDay(d) == p;
    MonthLength(d.year - 1, 11);
    assert DayNumber(p) == DayNumber(Date(d.year - 1, 11, 1)) + 30;
  }

  /** PrevDay stays within valid dates, goes back exactly one day number, and
      NextDay undoes it. */
  lemma {:induction false} PrevDayProperties(d: Date)
    requires ValidDate(d)
    ensures ValidDate(PrevDay(d))
    ensures DayNumber(PrevDay(d)) == DayNumber(d) - 1
    ensures NextDay(PrevDay(d)) == d
  {
    PrevDayStep(d);
  }

  /** NextDay stays within valid dates, goes forward exactly one day number,
      and PrevDay undoes it. */
  lemma {:induction false} NextDayProperties(d: Date)
    requires ValidDate(d)
    ensures ValidDate(NextDay(d))
    ensures DayNumber(NextDay(d)) == DayNumber(d) + 1
    ensures PrevDay(NextDay(d)) == d
  {
    if d.day == DaysInMonth(d.year, d.month) && d.month < 11 {
      MonthLength(d.year, d.month);
    } else if d.day == DaysInMonth(d.year, d.month) {
      MonthLength(d.year, 11);
    }
  }

  /** Consecutive days have consecutive weekdays. */
  lemma {:induction false} WeekdayNext(d: Date)
    requires ValidDate(d)
    ensures Weekday(NextDay(d)) == (Weekday(d) + 1) % 7
  {
    NextDayProperties(d);
    ModSucc(DayNumber(d) + 1);
  }

  lemma {:induction false} ModSucc(n: int)
    ensures (n + 1) % 7 == (n % 7 + 1) % 7
  {
  }

  lemma {:induction false} DaysBeforeMonthMonotone(y: int, m: nat, n: nat)
    requires m <= n
    ensures DaysBeforeMonth(y, m) <= DaysBeforeMonth(y, n)
    decreases n
  {
    if m < n {
      DaysBeforeMonthMonotone(y, m, n - 1);
    }
  }

  lemma {:induction false} DaysBeforeYearMonotone(y: int, z: int)
    requires y < z
    ensures DaysBeforeYear(y + 1) <= DaysBeforeYear(z)
    decreases z - y
  {
    if y + 1 < z {
      YearLength(z - 1);
      DaysBeforeYearMonotone(y, z - 1);
    }
  }

  /** A valid date's day number lies within its year and within its month. */
  lemma {:induction false} DayNumberBounds(d: Date)
    requires ValidDate(d)
    ensures DaysBeforeYear(d.year) <= DayNumber(d) < DaysBeforeYear(d.year + 1)
    ensures DaysBeforeMonth(d.year, d.month) <= DayNumber(d) - DaysBeforeYear(d.year)
            < DaysBeforeMonth(d.year, d.month + 1)
  {
    DaysBeforeMonthMonotone(d.year, d.month + 1, 12);
    DaysBeforeDecember(d.year);
    YearLength(d.year);
  }

  /** A valid date of an earlier year has a smaller day number. */
  lemma {:induction false} DayNumberYearOrder(a: Date, b: Date)
    requires ValidDate(a) && ValidDate(b) && a.year < b.year
    ensures DayNumber(a) < DayNumber(b)
  {
    DayNumberBounds(a);
    DayNumberBounds(b);
    DaysBeforeYearMonotone(a.year, b.year);
  }

  /** A valid date of an earlier month of the same year has a smaller day
      number. */
  lemma {:induction false} DayNumberMonthOrder(a: Date, b: Date)
    requires ValidDate(a) && ValidDate(b) && a.year == b.year && a.month < b.month
    ensures DayNumber(a) < DayNumber(b)
  {
    DayNumberBounds(a);
    DaysBeforeMonthMonotone(a.year, a.month + 1, b.month);
  }

  /** Distinct valid dates have distinct day numbers. */
  lemma {:induction false} DayNumberInjective(a: Date, b: Date)
    requires ValidDate(a) && ValidDate(b)
    requires DayNumber(a) == DayNumber(b)
    ensures a == b
  {
    if a.year < b.year {
      DayNumberYearOrder(a, b);
    } else if b.year < a.year {
      DayNumberYearOrder(b, a);
    } else if a.month < b.month {
      DayNumberMonthOrder(a, b);
    } else if b.month < a.month {
      DayNumberMonthOrder(b, a);
    }
  }
}
