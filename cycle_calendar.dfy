/** The calendar the BUP date format counts in: days since 1980-01-01 on a fixed
    four-year cycle whose first year (an offset divisible by 4) has a 29 February and
    whose other three years do not. This is not the Gregorian calendar: 2100 and 2200
    are leap years here. Years are OFFSETS from 1980 throughout this module. */
module CycleCalendar {

  /** Days in each month of a common year (`days_count`). */
  const DaysCount: seq<int> := [31, 28, 31, 30, 31, 30, 31, 31, 30, 31, 30, 31]

  /** Days elapsed in a common year before months 2 .. 12 (`monthtbl`). */
  const ElapsedDays: seq<int> := [
    31,
    31 + 28,
    31 + 28 + 31,
    31 + 28 + 31 + 30,
    31 + 28 + 31 + 30 + 31,
    31 + 28 + 31 + 30 + 31 + 30,
    31 + 28 + 31 + 30 + 31 + 30 + 31,
    31 + 28 + 31 + 30 + 31 + 30 + 31 + 31,
    31 + 28 + 31 + 30 + 31 + 30 + 31 + 31 + 30,
    31 + 28 + 31 + 30 + 31 + 30 + 31 + 31 + 30 + 31,
    31 + 28 + 31 + 30 + 31 + 30 + 31 + 31 + 30 + 31 + 30
  ]

  /** Days in one four-year cycle: 365 * 4 + 1. */
  const DaysPerCycle := 365 * 4 + 1

  /** A calendar date; `year` is the offset from 1980. */
  datatype Date = Date(year: nat, month: int, day: int)

  /** Days in `month` of `year`: February has 29 days in the first year of each cycle. */
  function MonthLength(year: nat, month: int): int
    requires 1 <= month <= 12
  {
    if month == 2 then (if year % 4 == 0 then 29 else 28)
    else if month == 4 || month == 6 || month == 9 || month == 11 then 30
    else 31
  }

  function YearLength(year: nat): int
  {
    if year % 4 == 0 then 366 else 365
  }

  /** Days of `year` before the first of `month` (month 13 stands for the year's end). */
  function DaysBeforeMonth(year: nat, month: int): nat
    requires 1 <= month <= 13
    decreases month
  {
    if month == 1 then 0 else DaysBeforeMonth(year, month - 1) + MonthLength(year, month - 1)
  }

  /** Days from 1980-01-01 to the first day of `year`. */
  function DaysBeforeYear(year: nat): nat
  {
    if year == 0 then 0 else DaysBeforeYear(year - 1) + YearLength(year - 1)
  }

  ghost predicate Valid(t: Date)
  {
    1 <= t.month <= 12 && 1 <= t.day <= MonthLength(t.year, t.month)
  }

  /** Days from 1980-01-01 to the given date (day 0 is 1980-01-01). Days past the end
      of the month simply continue counting. */
  function DayNumber(year: nat, month: int, day: int): int
    requires 1 <= month <= 12
  {
    DaysBeforeYear(year) + DaysBeforeMonth(year, month) + day - 1
  }

  /** Lexicographic (chronological) order of dates. */
  predicate Before(a: Date, b: Date)
  {
    a.year < b.year
    || (a.year == b.year && a.month < b.month)
    || (a.year == b.year && a.month == b.month && a.day < b.day)
  }

  /** The date `n` days after 1980-01-01: the one valid date with day number `n`. */
  ghost function DateOfDay(n: nat): (t: Date)
    ensures Valid(t) && DayNumber(t.year, t.month, t.day) == n
  {
    DateExists(n);
    var t :| Valid(t) && DayNumber(t.year, t.month, t.day) == n;
    t
  }

  /** Every day count names some date. */
  lemma DateExists(n: nat)
    ensures exists t :: Valid(t) && DayNumber(t.year, t.month, t.day) == n
  {
    var t := DateFrom(0, n);
    assert Valid(t) && DayNumber(t.year, t.month, t.day) == n;
  }

  /** The date `n` days after the first day of `year`, found year by year. */
  ghost function DateFrom(year: nat, n: nat): (t: Date)
    ensures Valid(t) && t.year >= year
    ensures DaysBeforeYear(t.year) + DaysBeforeMonth(t.year, t.month) + t.day - 1
            == DaysBeforeYear(year) + n
    decreases n
  {
    if n < YearLength(year) then
      YearEnd(year);
      DateInYear(year, 1, n)
    else
      DateFrom(year + 1, n - YearLength(year))
  }

  /** The date `n` days after the first of `month` in `year`, found month by month. */
  ghost function DateInYear(year: nat, month: int, n: nat): (t: Date)
    requires 1 <= month <= 12
    requires DaysBeforeMonth(year, month) + n < DaysBeforeMonth(year, 13)
    ensures Valid(t) && t.year == year && t.month >= month
    ensures DaysBeforeMonth(year, t.month) + t.day - 1 == DaysBeforeMonth(year, month) + n
    decreases 12 - month
  {
    if month == 12 || n < MonthLength(year, month) then
      Date(year, month, n + 1)
    else
      DateInYear(year, month + 1, n - MonthLength(year, month))
  }

  /** `days_count` with February lengthened in the cycle's leap year gives the month lengths. */
  lemma DaysCountTable(year: nat, month: int)
    requires 1 <= month <= 12
    ensures MonthLength(year, month)
            == DaysCount[month - 1] + (if month == 2 && year % 4 == 0 then 1 else 0)
  {
  }

  /** Month `i` (0 .. 47) of a cycle starting in `start` has `days_count[i % 12]` days,
      plus one for `i == 1`, the cycle's only 29 February. */
  lemma CycleMonthLength(start: nat, i: int)
    requires start % 4 == 0 && 0 <= i < 48
    ensures MonthLength(start + i / 12, i % 12 + 1) == DaysCount[i % 12] + (if i == 1 then 1 else 0)
  {
    assert ((start + i / 12) % 4 == 0) == (i < 12);
    DaysCountTable(start + i / 12, i % 12 + 1);
  }

  /** Cycle `c` starts in year offset 4c, after c whole cycles. */
  lemma CycleStart(c: nat)
    ensures (4 * c) % 4 == 0
    ensures DaysBeforeYear(4 * c) == c * DaysPerCycle
    ensures DaysBeforeYear(4 * c + 4) == c * DaysPerCycle + DaysPerCycle
  {
    YearTable(4 * c);
    YearTable(4 * c + 4);
  }

  /** Quotient and remainder by 12 of a number given as `12 * q + r`. */
  lemma DivMod12(n: int, q: int, r: int)
    requires 0 <= r < 12 && n == 12 * q + r
    ensures n / 12 == q && n % 12 == r
  {
  }

  /** A state of the month-by-month walk from day `n`: `days` days remain after the
      first of month `month + 1` of `year`. */
  ghost predicate WalkAt(n: nat, year: nat, month: int, days: nat)
  {
    0 <= month < 12 && DaysBeforeYear(year) + DaysBeforeMonth(year, month + 1) + days == n
  }

  /** Consuming a whole month moves the walk to the first of the next month, or of the
      next year after December. */
  lemma WalkStep(n: nat, year: nat, month: int, days: nat, len: int)
    requires WalkAt(n, year, month, days)
    requires len == MonthLength(year, month + 1) && days >= len
    ensures month < 11 ==> WalkAt(n, year, month + 1, days - len)
    ensures month == 11 ==> WalkAt(n, year + 1, 0, days - len)
  {
    if month == 11 {
      YearEnd(year);
    }
  }

  /** The walk from day `n` starts on the first day of `n`'s four-year cycle. */
  lemma WalkStart(n: nat)
    ensures (4 * (n / DaysPerCycle)) % 4 == 0
    ensures WalkAt(n, 4 * (n / DaysPerCycle), 0, n % DaysPerCycle)
  {
    CycleStart(n / DaysPerCycle);
  }

  /** No walk state of day `n` lies past the end of `n`'s four-year cycle. */
  lemma WalkInCycle(n: nat, year: nat, month: int, days: nat)
    requires WalkAt(n, year, month, days)
    ensures year < 4 * (n / DaysPerCycle) + 4
  {
    CycleStart(n / DaysPerCycle);
    if year >= 4 * (n / DaysPerCycle) + 4 {
      YearsMonotone(4 * (n / DaysPerCycle) + 4, year);
    }
  }

  /** A walk that stops inside a month has found the date of day `n`. */
  lemma WalkEnd(n: nat, year: nat, month: int, days: nat)
    requires WalkAt(n, year, month, days) && days < MonthLength(year, month + 1)
    ensures DateOfDay(n) == Date(year, month + 1, days + 1)
  {
    DateOfDayNumber(Date(year, month + 1, days + 1));
  }

  /** Gregorian leap years, as both source files test them. */
  predicate IsGregorianLeap(year: int)
  {
    year % 4 == 0 && (year % 100 != 0 || year % 400 == 0)
  }

  /** The month lengths of a year add up to the year's length. */
  lemma YearEnd(year: nat)
    ensures DaysBeforeMonth(year, 13) == YearLength(year)
  {
    MonthTable(year, 13);
  }

  /** The days before a month are the `monthtbl` entry, plus one after February of a
      cycle leap year. */
  lemma {:induction false} MonthTable(year: nat, month: int)
    requires 1 <= month <= 13
    ensures DaysBeforeMonth(year, month)
            == (if month == 1 then 0 else if month == 13 then 365 else ElapsedDays[month - 2])
               + (if year % 4 == 0 && month > 2 then 1 else 0)
    decreases month
  {
    if month > 1 {
      MonthTable(year, month - 1);
    }
  }

  /** The closed form that `bup_setdate` uses: whole cycles of 0x5B5 days, then 366 days
      for the cycle's leap year and 365 for each further year. */
  lemma {:induction false} YearTable(year: nat)
    ensures DaysBeforeYear(year)
            == (year / 4) * DaysPerCycle + (if year % 4 != 0 then (year % 4) * 365 + 1 else 0)
  {
    if year > 0 {
      YearTable(year - 1);
      var q, r := (year - 1) / 4, (year - 1) % 4;
      assert year - 1 == 4 * q + r;
      if r == 3 {
        assert year / 4 == q + 1 && year % 4 == 0;
      } else {
        assert year / 4 == q && year % 4 == r + 1;
      }
    }
  }

  /** Day counts grow with the year. */
  lemma {:induction false} YearsMonotone(a: nat, b: nat)
    requires a <= b
    ensures DaysBeforeYear(a) <= DaysBeforeYear(b)
    decreases b - a
  {
    if a < b {
      YearsMonotone(a, b - 1);
    }
  }

  lemma {:induction false} MonthsMonotone(year: nat, a: int, b: int)
    requires 1 <= a <= b <= 13
    ensures DaysBeforeMonth(year, a) <= DaysBeforeMonth(year, b)
    decreases b - a
  {
    if a < b {
      MonthsMonotone(year, a, b - 1);
    }
  }

  /** Every valid date falls inside its own year. */
  lemma DayInYear(t: Date)
    requires Valid(t)
    ensures DaysBeforeMonth(t.year, t.month) + t.day - 1 < YearLength(t.year)
  {
    MonthsMonotone(t.year, t.month + 1, 13);
    YearEnd(t.year);
  }

  /** Day numbers and dates correspond one to one: the date of a valid date's day
      number is that date. */
  lemma DateOfDayNumber(t: Date)
    requires Valid(t)
    ensures DateOfDay(DayNumber(t.year, t.month, t.day)) == t
  {
    var u := DateOfDay(DayNumber(t.year, t.month, t.day));
    DayNumberInjective(u, t);
  }

  /** Consequently a valid date is determined by its day number. */
  lemma DayNumberInjective(a: Date, b: Date)
    requires Valid(a) && Valid(b)
    requires DayNumber(a.year, a.month, a.day) == DayNumber(b.year, b.month, b.day)
    ensures a == b
  {
    if Before(a, b) {
      DayNumberIncreasing(a, b);
    } else if Before(b, a) {
      DayNumberIncreasing(b, a);
    }
  }

  /** Day numbers are strictly increasing in chronological order. */
  lemma DayNumberIncreasing(a: Date, b: Date)
    requires Valid(a) && Valid(b) && Before(a, b)
    ensures DayNumber(a.year, a.month, a.day) < DayNumber(b.year, b.month, b.day)
  {
    if a.year < b.year {
      DayInYear(a);
      YearsMonotone(a.year + 1, b.year);
    } else if a.month < b.month {
      MonthsMonotone(a.year, a.month + 1, b.month);
    }
  }

  /** Days in the 256 years a one-byte year offset can name: 64 whole cycles. */
  const ByteYearsDays := 64 * DaysPerCycle

  /** Years before offset 256 start within those days; later ones start after them. */
  lemma ByteYearsBound(year: nat)
    ensures year <= 256 ==> DaysBeforeYear(year) <= ByteYearsDays
    ensures year >= 256 ==> DaysBeforeYear(year) >= ByteYearsDays
  {
    YearTable(year);
    if year <= 256 {
      assert year / 4 <= 64;
      assert year / 4 < 64 ==> (year / 4) * DaysPerCycle <= 63 * DaysPerCycle;
    } else {
      assert year / 4 >= 64;
    }
  }

  /** Every valid date in those years has a day number among those days. */
  lemma ByteYearsDay(t: Date)
    requires Valid(t) && t.year < 256
    ensures 0 <= DayNumber(t.year, t.month, t.day) < ByteYearsDays
  {
    DayInYear(t);
    assert DaysBeforeYear(t.year + 1) == DaysBeforeYear(t.year) + YearLength(t.year);
    ByteYearsBound(t.year + 1);
  }
}
