/**
 * The proleptic Gregorian UTC calendar of ECMAScript `Date`, on integer
 * milliseconds since 1970-01-01T00:00:00Z, and the date helpers built on it:
 * `getDaysInMonth`, `getFirstDayOfMonth`, `getWeekRange`, `getMonthRange`,
 * `toISOString` / `formatDate` and the parsing of a `YYYY-MM-DD` string at
 * UTC midnight.
 */
module CalendarDates {
  import opened Strings
  import opened Optional

  const MsPerDay: int := 86_400_000
  const MsPerHour: int := 3_600_000

  /** The day number of a time value: whole days since the epoch, rounded down. */
  function Day(t: int): int {
    t / MsPerDay
  }

  /** `getUTCDay()` of a day number: 0 is Sunday; the epoch was a Thursday. */
  function Weekday(z: int): (r: int)
    ensures 0 <= r < 7
  {
    (z + 4) % 7
  }

  /** `setUTCHours(0, 0, 0, 0)`: the start of the time value's UTC day. */
  function MidnightOf(t: int): (r: int)
    ensures r <= t < r + MsPerDay && r % MsPerDay == 0 && Day(r) == Day(t)
  {
    Day(t) * MsPerDay
  }

  lemma DayOfMidnight(z: int)
    ensures Day(z * MsPerDay) == z && (z * MsPerDay) % MsPerDay == 0
  {
  }

  // ---------------------------------------------------------------------------
  // Years and months

  predicate IsLeapYear(y: int) {
    y % 4 == 0 && (y % 100 != 0 || y % 400 == 0)
  }

  function YearLength(y: int): int {
    if IsLeapYear(y) then 366 else 365
  }

  /** Days in month `m` (0 = January) of year `y`. */
  function MonthLength(y: int, m: int): (r: int)
    requires 0 <= m < 12
    ensures 28 <= r <= 31
  {
    if m == 1 then (if IsLeapYear(y) then 29 else 28)
    else if m == 3 || m == 5 || m == 8 || m == 10 then 30
    else 31
  }

  /**
   * The day number of January 1 of year `y`: the days of the years between
   * it and 1970, counted forwards or backwards.
   */
  function DaysBeforeYear(y: int): int
    decreases if y < 1970 then 1970 - y else y - 1970
  {
    if y == 1970 then 0
    else if y > 1970 then DaysBeforeYear(y - 1) + YearLength(y - 1)
    else DaysBeforeYear(y + 1) - YearLength(y)
  }

  /** Days of year `y` before the first of month `m` (`m == 12` gives the whole year). */
  function DaysBeforeMonth(y: int, m: int): int
    requires 0 <= m <= 12
  {
    [0, 31, 59, 90, 120, 151, 181, 212, 243, 273, 304, 334, 365][m]
      + (if m >= 2 && IsLeapYear(y) then 1 else 0)
  }

  /** Consecutive years are `YearLength` days apart. */
  lemma NextYear(y: int)
    ensures DaysBeforeYear(y + 1) == DaysBeforeYear(y) + YearLength(y)
  {
  }

  lemma Step4(a: int)
    ensures (a + 1) / 4 == a / 4 + (if (a + 1) % 4 == 0 then 1 else 0)
  {
  }

  lemma Step100(a: int)
    ensures (a + 1) / 100 == a / 100 + (if (a + 1) % 100 == 0 then 1 else 0)
  {
  }

  lemma Step400(a: int)
    ensures (a + 1) / 400 == a / 400 + (if (a + 1) % 400 == 0 then 1 else 0)
  {
  }

  lemma Shift(y: int)
    ensures (y - 1968) % 4 == y % 4
    ensures (y - 1900) % 100 == y % 100
    ensures (y - 1600) % 400 == y % 400
  {
    assert y - 1968 == 4 * (y / 4 - 492) + y % 4;
    assert y - 1900 == 100 * (y / 100 - 19) + y % 100;
    assert y - 1600 == 400 * (y / 400 - 4) + y % 400;
  }

  /** The ECMAScript `DayFromYear` formula. */
  function DayFromYear(y: int): int {
    365 * (y - 1970) + (y - 1969) / 4 - (y - 1901) / 100 + (y - 1601) / 400
  }

  lemma NextYearFormula(y: int)
    ensures DayFromYear(y + 1) == DayFromYear(y) + YearLength(y)
  {
    Step4(y - 1969);
    Step100(y - 1901);
    Step400(y - 1601);
    Shift(y);
    LeapCount(y);
  }

  /** Counting multiples of 4, less those of 100, plus those of 400, counts the leap years. */
  lemma LeapCount(y: int)
    ensures (if y % 4 == 0 then 1 else 0) - (if y % 100 == 0 then 1 else 0) + (if y % 400 == 0 then 1 else 0)
      == if IsLeapYear(y) then 1 else 0
  {
    if y % 400 == 0 {
      assert y == 100 * (4 * (y / 400));
    }
    if y % 100 == 0 {
      assert y == 4 * (25 * (y / 100));
    }
  }

  /** The year counting agrees with the closed formula of ECMAScript `DayFromYear`. */
  lemma {:induction false} DaysBeforeYearFormula(y: int)
    ensures DaysBeforeYear(y) == DayFromYear(y)
    decreases if y < 1970 then 1970 - y else y - 1970
  {
    if y > 1970 {
      DaysBeforeYearFormula(y - 1);
      NextYearFormula(y - 1);
    } else if y < 1970 {
      DaysBeforeYearFormula(y + 1);
      NextYearFormula(y);
    }
  }

  lemma {:induction false} DaysBeforeYearMonotone(a: int, b: int)
    requires a <= b
    ensures DaysBeforeYear(a) + 365 * (b - a) <= DaysBeforeYear(b)
    decreases b - a
  {
    if a < b {
      DaysBeforeYearMonotone(a, b - 1);
      NextYear(b - 1);
    }
  }

  lemma NextMonth(y: int, m: int)
    requires 0 <= m < 12
    ensures DaysBeforeMonth(y, m + 1) == DaysBeforeMonth(y, m) + MonthLength(y, m)
    ensures DaysBeforeMonth(y, m + 1) <= DaysBeforeMonth(y, 12) == YearLength(y)
  {
  }

  /** The day number of day `d` of month `m` of year `y` (`d` may fall outside the month). */
  function DayFromCivil(y: int, m: int, d: int): int
    requires 0 <= m < 12
  {
    DaysBeforeYear(y) + DaysBeforeMonth(y, m) + d - 1
  }

  /**
   * The ECMAScript `MakeDay(year, month, date)`, on which `Date.UTC`, the
   * `Date` constructor and `setUTCDate` rest: months outside 0..11 carry
   * into the year.
   */
  function MakeDay(y: int, m: int, d: int): (r: int)
    ensures r == DayFromCivil(y + m / 12, m % 12, d)
    ensures 0 <= m < 12 ==> r == DayFromCivil(y, m, d)
  {
    DayFromCivil(y + m / 12, m % 12, d)
  }

  /**
   * ECMAScript `MakeFullYear`: given two or more arguments, the `Date`
   * constructor and `Date.UTC` read a year from 0 to 99 as 1900 + year.
   */
  function FullYear(y: int): int {
    if 0 <= y <= 99 then 1900 + y else y
  }

  /** `Date.UTC(y, m, d)`, and `new Date(y, m, d)` read in UTC, as a day number. */
  function DateUtc(y: int, m: int, d: int): int {
    MakeDay(FullYear(y), m, d)
  }

  /** For a month index in 0..11, `Date.UTC` is the calendar day of the year it reads. */
  lemma DateUtcInMonth(y: int, m: int, d: int)
    requires 0 <= m < 12
    ensures DateUtc(y, m, d) == DayFromCivil(FullYear(y), m, d)
  {
  }

  /** A calendar date: `month` is 0-based as in `getUTCMonth()`, `day` is 1-based. */
  datatype Civil = Civil(year: int, month: int, day: int)

  predicate ValidCivil(c: Civil) {
    0 <= c.month < 12 && 1 <= c.day <= MonthLength(c.year, c.month)
  }

  function DayOfCivil(c: Civil): int
    requires 0 <= c.month < 12
  {
    DayFromCivil(c.year, c.month, c.day)
  }

  /** Search upwards from year `y` for the year containing day `z`. */
  function YearUp(z: int, y: int): (r: int)
    requires DaysBeforeYear(y) <= z
    ensures DaysBeforeYear(r) <= z < DaysBeforeYear(r + 1)
    decreases z - DaysBeforeYear(y)
  {
    NextYear(y);
    if z < DaysBeforeYear(y + 1) then y else YearUp(z, y + 1)
  }

  /** Search downwards from year `y` for the year containing day `z`. */
  function YearDown(z: int, y: int): (r: int)
    requires z < DaysBeforeYear(y + 1)
    ensures DaysBeforeYear(r) <= z < DaysBeforeYear(r + 1)
    decreases DaysBeforeYear(y + 1) - z
  {
    NextYear(y);
    if DaysBeforeYear(y) <= z then y else YearDown(z, y - 1)
  }

  /** `getUTCFullYear()` of day `z`: the year whose days include `z`. */
  function YearOf(z: int): (r: int)
    ensures DaysBeforeYear(r) <= z < DaysBeforeYear(r + 1)
  {
    if z >= 0 then YearUp(z, 1970) else YearDown(z, 1969)
  }

  /** Search downwards from month `m` for the month of year `y` holding day-of-year `w`. */
  function MonthScan(y: int, w: int, m: int): (r: int)
    requires 0 <= m < 12 && 0 <= w < DaysBeforeMonth(y, m + 1)
    ensures 0 <= r <= m && DaysBeforeMonth(y, r) <= w < DaysBeforeMonth(y, r + 1)
    decreases m
  {
    if DaysBeforeMonth(y, m) <= w then m else MonthScan(y, w, m - 1)
  }

  /** The UTC calendar date of day `z`. */
  function CivilFromDay(z: int): (r: Civil)
    ensures ValidCivil(r) && DayOfCivil(r) == z
  {
    var y := YearOf(z);
    NextYear(y);
    var w := z - DaysBeforeYear(y);
    var m := MonthScan(y, w, 11);
    NextMonth(y, m);
    Civil(y, m, w - DaysBeforeMonth(y, m) + 1)
  }

  lemma YearUnique(z: int, a: int, b: int)
    requires DaysBeforeYear(a) <= z < DaysBeforeYear(a + 1)
    requires DaysBeforeYear(b) <= z < DaysBeforeYear(b + 1)
    ensures a == b
  {
    if a < b {
      DaysBeforeYearMonotone(a + 1, b);
    } else if b < a {
      DaysBeforeYearMonotone(b + 1, a);
    }
  }

  lemma MonthUnique(y: int, w: int, a: int, b: int)
    requires 0 <= a < 12 && 0 <= b < 12
    requires DaysBeforeMonth(y, a) <= w < DaysBeforeMonth(y, a + 1)
    requires DaysBeforeMonth(y, b) <= w < DaysBeforeMonth(y, b + 1)
    ensures a == b
  {
  }

  /** A valid date lies inside its year and, within the year, inside its month. */
  lemma CivilInYear(c: Civil)
    requires ValidCivil(c)
    ensures DaysBeforeYear(c.year) <= DayOfCivil(c) < DaysBeforeYear(c.year + 1)
    ensures var w := DayOfCivil(c) - DaysBeforeYear(c.year);
      DaysBeforeMonth(c.year, c.month) <= w < DaysBeforeMonth(c.year, c.month + 1)
  {
    NextMonth(c.year, c.month);
    NextYear(c.year);
  }

  /** Distinct valid dates are distinct days. */
  lemma DayOfCivilInjective(a: Civil, b: Civil)
    requires ValidCivil(a) && ValidCivil(b) && DayOfCivil(a) == DayOfCivil(b)
    ensures a == b
  {
    var z := DayOfCivil(a);
    CivilInYear(a);
    CivilInYear(b);
    YearUnique(z, a.year, b.year);
    MonthUnique(a.year, z - DaysBeforeYear(a.year), a.month, b.month);
  }

  /** Every valid calendar date names exactly one day: `CivilFromDay` inverts `DayOfCivil`. */
  lemma CivilRoundTrip(c: Civil)
    requires ValidCivil(c)
    ensures CivilFromDay(DayOfCivil(c)) == c
  {
    DayOfCivilInjective(CivilFromDay(DayOfCivil(c)), c);
  }

  /** Two days with the same calendar date are the same day. */
  lemma CivilFromDayInjective(z: int, u: int)
    requires CivilFromDay(z) == CivilFromDay(u)
    ensures z == u
  {
  }

  /** Day 0 of the month after `m` is the last day of `m` (both normalised as `MakeDay` does). */
  lemma NextMonthDayZero(y: int, m: int)
    ensures var y1, m1 := y + m / 12, m % 12;
      MakeDay(y, m + 1, 0) == DayFromCivil(y1, m1, MonthLength(y1, m1))
  {
    MonthCarry(m);
    var y1, m1 := y + m / 12, m % 12;
    if m1 == 11 {
      NextYear(y1);
      NextMonth(y1, 11);
      assert MakeDay(y, m + 1, 0) == DaysBeforeYear(y1 + 1) - 1;
    } else {
      NextMonth(y1, m1);
      assert MakeDay(y, m + 1, 0) == DaysBeforeYear(y1) + DaysBeforeMonth(y1, m1 + 1) - 1;
    }
  }

  // ---------------------------------------------------------------------------
  // getDaysInMonth / getFirstDayOfMonth

  /** How the month after `m` normalises, relative to `m` itself. */
  lemma MonthCarry(m: int)
    ensures (m + 1) % 12 == 0 ==> (m + 1) / 12 == m / 12 + 1 && m % 12 == 11
    ensures (m + 1) % 12 != 0 ==> (m + 1) / 12 == m / 12 && (m + 1) % 12 == m % 12 + 1
  {
  }

  /**
   * `new Date(year, month + 1, 0).getDate()`: day 0 of the next month is the
   * last day of this one, so the result is the month's length, with the
   * year read by `FullYear` and a month outside 0..11 carried into it.
   */
  function GetDaysInMonth(y: int, m: int): (r: int)
    ensures r == MonthLength(FullYear(y) + m / 12, m % 12)
    ensures 0 <= m < 12 ==> r == MonthLength(FullYear(y), m)
  {
    LastDayIsLength(y, m);
    assert 0 <= m < 12 ==> m / 12 == 0 && m % 12 == m;
    CivilFromDay(DateUtc(y, m + 1, 0)).day
  }

  lemma LastDayIsLength(y: int, m: int)
    ensures var y1, m1 := FullYear(y) + m / 12, m % 12;
      CivilFromDay(DateUtc(y, m + 1, 0)) == Civil(y1, m1, MonthLength(y1, m1))
  {
    var y1, m1 := FullYear(y) + m / 12, m % 12;
    var c := Civil(y1, m1, MonthLength(y1, m1));
    NextMonthDayZero(FullYear(y), m);
    assert DateUtc(y, m + 1, 0) == DayOfCivil(c);
    CivilRoundTrip(c);
  }

  /** February has 29 days exactly in the Gregorian leap years, the year read as the constructor reads it. */
  lemma FebruaryLength(y: int)
    ensures GetDaysInMonth(y, 1) == 29 <==> IsLeapYear(FullYear(y))
    ensures GetDaysInMonth(y, 1) == 28 <==> !IsLeapYear(FullYear(y))
  {
  }

  /** A two-digit year names the twentieth century: February of year 0 is February 1900, which is not a leap month. */
  lemma TwoDigitYear(y: int)
    requires y == 0
    ensures IsLeapYear(y) && GetDaysInMonth(y, 1) == 28
  {
    assert FullYear(y) == 1900 && !IsLeapYear(1900);
    FebruaryLength(y);
  }

  /** The other eleven months have their fixed lengths. */
  lemma FixedMonthLengths(y: int, m: int)
    requires 0 <= m < 12 && m != 1
    ensures GetDaysInMonth(y, m) == 31 <==> m in {0, 2, 4, 6, 7, 9, 11}
    ensures GetDaysInMonth(y, m) == 30 <==> m in {3, 5, 8, 10}
  {
  }

  /** `new Date(year, month, 1).getDay()`: the weekday of the first of the month, the year read as the constructor reads it. */
  function GetFirstDayOfMonth(y: int, m: int): (r: int)
    ensures 0 <= r < 7
    ensures 0 <= m < 12 ==>
      CivilFromDay(DateUtc(y, m, 1)) == Civil(FullYear(y), m, 1) && r == Weekday(DayOfCivil(Civil(FullYear(y), m, 1)))
  {
    if 0 <= m < 12 then CivilRoundTrip(Civil(FullYear(y), m, 1)); Weekday(DateUtc(y, m, 1))
    else Weekday(DateUtc(y, m, 1))
  }

  /** Day 0 of the next month is the last day of this month. */
  lemma LastDayOfMonth(y: int, m: int)
    ensures DateUtc(y, m + 1, 0) == DateUtc(y, m, GetDaysInMonth(y, m))
  {
    var n := GetDaysInMonth(y, m);
    MakeDayZero(FullYear(y), m);
    assert n == MonthLength(FullYear(y) + m / 12, m % 12);
    assert DateUtc(y, m, n) == MakeDay(FullYear(y), m, n);
  }

  /** `MakeDay` of day 0 of month `m + 1` is `MakeDay` of the last day of month `m`. */
  lemma MakeDayZero(y: int, m: int)
    ensures MakeDay(y, m + 1, 0) == MakeDay(y, m, MonthLength(y + m / 12, m % 12))
  {
    NextMonthDayZero(y, m);
  }

  /** The first of the next month falls `GetDaysInMonth` weekdays later. */
  lemma FirstDayOfNextMonth(y: int, m: int)
    ensures GetFirstDayOfMonth(y, m + 1) == (GetFirstDayOfMonth(y, m) + GetDaysInMonth(y, m)) % 7
  {
    LastDayOfMonth(y, m);
    var a, n := DateUtc(y, m, 1), GetDaysInMonth(y, m);
    DateUtcShift(y, m + 1, 0, 1);
    DateUtcShift(y, m, 1, n - 1);
    FirstDayIsWeekday(y, m);
    FirstDayIsWeekday(y, m + 1);
    WeekdayAdd(a, n);
  }

  /** `Date.UTC` moves by whole days with its day argument, in any month. */
  lemma DateUtcShift(y: int, m: int, d: int, k: int)
    ensures DateUtc(y, m, d + k) == DateUtc(y, m, d) + k
  {
  }

  lemma FirstDayIsWeekday(y: int, m: int)
    ensures GetFirstDayOfMonth(y, m) == Weekday(DateUtc(y, m, 1))
  {
  }

  lemma WeekdayAdd(z: int, k: int)
    ensures Weekday(z + k) == (Weekday(z) + k) % 7
  {
  }

  // ---------------------------------------------------------------------------
  // Date objects that are changed in place (getWeekRange)

  /** A JavaScript `Date`: a time value changed by its UTC setters. */
  class UtcDate {
    var time: int

    constructor (t: int)
      ensures time == t
    {
      time := t;
    }

    function UtcDayOfWeek(): (r: int)
      reads this
      ensures 0 <= r < 7
    {
      Weekday(Day(time))
    }

    /** `getUTCDate()`. */
    function UtcDate(): (r: int)
      reads this
      ensures 1 <= r <= 31
    {
      CivilFromDay(Day(time)).day
    }

    /** `setUTCHours(0, 0, 0, 0)`. */
    method SetUtcMidnight()
      modifies this
      ensures time == MidnightOf(old(time))
    {
      time := MidnightOf(time);
    }

    /** `setUTCDate(date)`: keep year, month and time of day, and set the day of the month (carrying out of the month). */
    method SetUtcDate(date: int)
      modifies this
      ensures var c := CivilFromDay(Day(old(time)));
        time == MakeDay(c.year, c.month, date) * MsPerDay + old(time) % MsPerDay
    {
      var c := CivilFromDay(Day(time));
      time := MakeDay(c.year, c.month, date) * MsPerDay + time % MsPerDay;
    }
  }

  /** Moving the day of the month by `k` moves the time value by `k` whole days. */
  lemma ShiftDate(t: int, k: int)
    ensures var c := CivilFromDay(Day(t));
      MakeDay(c.year, c.month, c.day + k) * MsPerDay + t % MsPerDay == t + k * MsPerDay
  {
  }

  /** The Sunday midnight that starts the week of `t`. */
  function WeekStart(t: int): int {
    (Day(t) - Weekday(Day(t))) * MsPerDay
  }

  /** A week starts at midnight on a Sunday, and the midnight of `t` is one of its seven days. */
  lemma WeekStartShape(t: int)
    ensures WeekStart(t) % MsPerDay == 0
    ensures Weekday(Day(WeekStart(t))) == 0
    ensures WeekStart(t) <= MidnightOf(t) <= WeekStart(t) + 6 * MsPerDay
  {
    DayOfMidnight(Day(t) - Weekday(Day(t)));
  }

  /** Every time inside a week yields that same week. */
  lemma WeekRangeStable(t: int, u: int)
    requires WeekStart(t) <= u < WeekStart(t) + 7 * MsPerDay
    ensures WeekStart(u) == WeekStart(t)
  {
    var z := Day(t) - Weekday(Day(t));
    DayOfMidnight(z);
    assert z <= Day(u) < z + 7;
    assert Weekday(z) == 0;
  }

  /**
   * `getWeekRange(referenceDate?)`: the Sunday starting the UTC week of the
   * reference date (the current time when none is given) and the Saturday
   * six days later, both at midnight.
   */
  method GetWeekRange(reference: Option<int>, now: int) returns (start: int, end: int)
    ensures var t := if reference.Some? then reference.value else now;
      start == WeekStart(t) && end == start + 6 * MsPerDay
  {
    var d := new UtcDate(if reference.Some? then reference.value else now);
    ghost var t := d.time;
    d.SetUtcMidnight();
    assert d.time == Day(t) * MsPerDay && d.time % MsPerDay == 0 && Day(d.time) == Day(t);
    var dayOfWeek := d.UtcDayOfWeek();
    var s := new UtcDate(d.time);
    ShiftDate(s.time, -dayOfWeek);
    s.SetUtcDate(d.UtcDate() - dayOfWeek);
    assert s.time == d.time - dayOfWeek * MsPerDay;
    var e := new UtcDate(s.time);
    ShiftDate(e.time, 6);
    e.SetUtcDate(s.UtcDate() + 6);
    assert e.time == s.time + 6 * MsPerDay;
    start, end := s.time, e.time;
  }

  // ---------------------------------------------------------------------------
  // getMonthRange

  datatype DateRange = DateRange(start: int, end: int)

  /**
   * `getMonthRange(referenceDate?)`: `Date.UTC(year, month, 1)` and
   * `Date.UTC(year, month + 1, 0)` for the reference date's UTC year and
   * month. `Date.UTC` reads a year 0..99 as 1900 + year, so for a date of
   * those years the range is that month 1900 years on, after the date.
   */
  function GetMonthRange(reference: Option<int>, now: int): (r: DateRange)
    ensures var t := if reference.Some? then reference.value else now;
      var c := CivilFromDay(Day(t));
      var y := FullYear(c.year);
      && r.start % MsPerDay == 0 && r.end % MsPerDay == 0
      && CivilFromDay(Day(r.start)) == Civil(y, c.month, 1)
      && CivilFromDay(Day(r.end)) == Civil(y, c.month, GetDaysInMonth(c.year, c.month))
      && Day(r.end) - Day(r.start) + 1 == GetDaysInMonth(c.year, c.month)
      && (y == c.year ==> r.start <= t < r.end + MsPerDay)
      && (y != c.year ==> t < r.start)
  {
    var t := if reference.Some? then reference.value else now;
    var c := CivilFromDay(Day(t));
    var y := FullYear(c.year);
    var first, last := DateUtc(c.year, c.month, 1), DateUtc(c.year, c.month + 1, 0);
    MonthBounds(Civil(y, c.month, 1));
    MonthRangeAround(c);
    DayOfMidnight(first);
    DayOfMidnight(last);
    assert MidnightOf(t) == Day(t) * MsPerDay;
    DateRange(first * MsPerDay, last * MsPerDay)
  }

  /** A date lies in the month `Date.UTC` names for it, unless its year is read as 1900 + year, which is later. */
  lemma MonthRangeAround(c: Civil)
    requires ValidCivil(c)
    ensures FullYear(c.year) == c.year ==>
      DateUtc(c.year, c.month, 1) <= DayOfCivil(c) <= DateUtc(c.year, c.month + 1, 0)
    ensures FullYear(c.year) != c.year ==> DayOfCivil(c) < DateUtc(c.year, c.month, 1)
  {
    var y := FullYear(c.year);
    if y == c.year {
      MonthBounds(c);
    } else {
      CivilInYear(c);
      DaysBeforeYearMonotone(c.year + 1, y);
      CivilInYear(Civil(y, c.month, 1));
    }
  }

  /** The first and the last day of a date's month, and the date between them. */
  lemma MonthBounds(c: Civil)
    requires ValidCivil(c)
    ensures var first, last, n := MakeDay(c.year, c.month, 1), MakeDay(c.year, c.month + 1, 0), MonthLength(c.year, c.month);
      && CivilFromDay(first) == Civil(c.year, c.month, 1)
      && CivilFromDay(last) == Civil(c.year, c.month, n)
      && last == first + n - 1
      && first <= DayOfCivil(c) <= last
  {
    CivilRoundTrip(Civil(c.year, c.month, 1));
    LastOfMonth(c.year, c.month);
  }

  /** Day 0 of the next month is the month's last day, `MonthLength - 1` days after the 1st. */
  lemma LastOfMonth(y: int, m: int)
    requires 0 <= m < 12
    ensures var n := MonthLength(y, m);
      && CivilFromDay(MakeDay(y, m + 1, 0)) == Civil(y, m, n)
      && MakeDay(y, m + 1, 0) == DayFromCivil(y, m, 1) + n - 1
  {
    var n := MonthLength(y, m);
    NextMonthDayZero(y, m);
    assert m / 12 == 0 && m % 12 == m;
    assert MakeDay(y, m + 1, 0) == DayFromCivil(y, m, n);
    CivilRoundTrip(Civil(y, m, n));
  }

  // ---------------------------------------------------------------------------
  // toISOString / formatDate

  /** The year as `toISOString` writes it: four digits, or a sign and six digits outside 0..9999. */
  function YearText(y: int): string {
    if 0 <= y <= 9999 then Decimal(y, 4)
    else (if y < 0 then "-" else "+") + Decimal(if y < 0 then -y else y, 6)
  }

  /** `YYYY-MM-DD` of a calendar date. */
  function DateText(c: Civil): string
    requires ValidCivil(c)
  {
    YearText(c.year) + "-" + Decimal(c.month + 1, 2) + "-" + Decimal(c.day, 2)
  }

  /** `HH:mm:ss.sssZ` of a time within the day. */
  function TimeText(ms: int): string
    requires 0 <= ms < MsPerDay
  {
    Decimal(ms / MsPerHour, 2) + ":" + Decimal(ms / 60_000 % 60, 2) + ":"
      + Decimal(ms / 1000 % 60, 2) + "." + Decimal(ms % 1000, 3) + "Z"
  }

  /** `date.toISOString()`. */
  function ToIsoString(t: int): string {
    DateText(CivilFromDay(Day(t))) + "T" + TimeText(t % MsPerDay)
  }

  lemma DateTextHasNoT(c: Civil)
    requires ValidCivil(c)
    ensures 'T' !in DateText(c)
  {
    var s := DateText(c);
    forall i | 0 <= i < |s| ensures s[i] != 'T' {
    }
  }

  /** `formatDate(date)`, `date.toISOString().split("T")[0]`: the UTC calendar date as `YYYY-MM-DD`. */
  function FormatDate(t: int): (r: string)
    ensures r == DateText(CivilFromDay(Day(t)))
  {
    DateTextHasNoT(CivilFromDay(Day(t)));
    BeforeTOfConcat(DateText(CivilFromDay(Day(t))), TimeText(t % MsPerDay));
    BeforeT(ToIsoString(t))
  }

  /** `formatDate` depends on the day only. */
  lemma FormatDateOfDay(t: int, u: int)
    ensures FormatDate(t) == FormatDate(u) <==> Day(t) == Day(u)
  {
    if FormatDate(t) == FormatDate(u) {
      FormatDateInjective(CivilFromDay(Day(t)), CivilFromDay(Day(u)));
      CivilFromDayInjective(Day(t), Day(u));
    }
  }

  lemma YearTextInjective(a: int, b: int)
    requires YearText(a) == YearText(b)
    ensures a == b
  {
    if 0 <= a <= 9999 && 0 <= b <= 9999 {
      ParseDecimal(a, 4);
      ParseDecimal(b, 4);
    } else if !(0 <= a <= 9999) && !(0 <= b <= 9999) {
      var sa, sb := YearText(a), YearText(b);
      assert sa[0] == sb[0];
      assert sa[1..] == Decimal(if a < 0 then -a else a, 6);
      assert sb[1..] == Decimal(if b < 0 then -b else b, 6);
      ParseDecimal(if a < 0 then -a else a, 6);
      ParseDecimal(if b < 0 then -b else b, 6);
    }
  }

  /** Where the fields sit in `DateText(c)`: the year, then two-digit month and day after hyphens. */
  lemma DateTextParts(c: Civil)
    requires ValidCivil(c)
    ensures var s, k := DateText(c), |YearText(c.year)|;
      && |s| == k + 6 && s[..k] == YearText(c.year)
      && s[k] == '-' && s[k + 1..k + 3] == Decimal(c.month + 1, 2)
      && s[k + 3] == '-' && s[k + 4..] == Decimal(c.day, 2)
  {
    DecimalLength(c.month + 1, 2);
    DecimalLength(c.day, 2);
  }

  /** A year is written with four digits exactly when it is in 0..9999; otherwise a sign comes first. */
  lemma YearTextShape(y: int)
    ensures 0 <= y <= 9999 ==> |YearText(y)| == 4 && YearText(y) == Decimal(y, 4)
    ensures !(0 <= y <= 9999) ==> |YearText(y)| >= 7 && !IsDigit(YearText(y)[0])
  {
    if 0 <= y <= 9999 {
      DecimalLength(y, 4);
    }
  }

  /** Distinct valid dates are written differently. */
  lemma FormatDateInjective(c: Civil, d: Civil)
    requires ValidCivil(c) && ValidCivil(d) && DateText(c) == DateText(d)
    ensures c == d
  {
    var s := DateText(c);
    DateTextParts(c);
    DateTextParts(d);
    var k := |YearText(c.year)|;
    assert |YearText(d.year)| == k;
    YearTextInjective(c.year, d.year);
    DecimalsEqual(c.month + 1, d.month + 1, 2);
    DecimalsEqual(c.day, d.day, 2);
  }

  lemma DecimalsEqual(a: nat, b: nat, width: int)
    requires Decimal(a, width) == Decimal(b, width)
    ensures a == b
  {
    ParseDecimal(a, width);
    ParseDecimal(b, width);
  }

  // ---------------------------------------------------------------------------
  // Parsing YYYY-MM-DD at UTC midnight

  /** The shape `/^\d{4}-\d{2}-\d{2}$/`. */
  predicate IsDateShape(s: string) {
    && |s| == 10 && s[4] == '-' && s[7] == '-'
    && AllDigits(s[..4]) && AllDigits(s[5..7]) && AllDigits(s[8..])
  }

  /**
   * `new Date(date + "T00:00:00Z")` for a string of that shape: the UTC
   * midnight of the date when the month is 1..12 and the day 1..31, a day
   * past the month's end carrying into the next month; `None` (an Invalid
   * Date) otherwise.
   */
  function ParseUtcMidnight(s: string): (r: Option<int>)
    requires IsDateShape(s)
    ensures r.Some? <==> 1 <= ParseNat(s[5..7]) <= 12 && 1 <= ParseNat(s[8..]) <= 31
    ensures r.Some? ==> r.value % MsPerDay == 0
  {
    var y, mo, d := ParseNat(s[..4]), ParseNat(s[5..7]), ParseNat(s[8..]);
    if 1 <= mo <= 12 && 1 <= d <= 31 then
      DayOfMidnight(MakeDay(y, mo - 1, d));
      Some(MakeDay(y, mo - 1, d) * MsPerDay)
    else None
  }

  /** `formatDate` has the `YYYY-MM-DD` shape exactly for the years 0..9999. */
  lemma FormatDateShape(t: int)
    ensures IsDateShape(FormatDate(t)) <==> 0 <= CivilFromDay(Day(t)).year <= 9999
  {
    var c := CivilFromDay(Day(t));
    var s := DateText(c);
    DateTextParts(c);
    YearTextShape(c.year);
    if !(0 <= c.year <= 9999) {
      assert s[..4][0] == YearText(c.year)[0];
    }
  }

  /** Parsing what `formatDate` wrote, at UTC midnight, gives back the midnight of the day. */
  lemma FormatThenParse(t: int)
    requires 0 <= CivilFromDay(Day(t)).year <= 9999
    ensures IsDateShape(FormatDate(t))
    ensures ParseUtcMidnight(FormatDate(t)) == Some(MidnightOf(t))
  {
    FormatDateShape(t);
    var c := CivilFromDay(Day(t));
    var s := DateText(c);
    DateTextParts(c);
    YearTextShape(c.year);
    ParseDecimal(c.year, 4);
    ParseDecimal(c.month + 1, 2);
    ParseDecimal(c.day, 2);
    assert ParseNat(s[..4]) == c.year && ParseNat(s[5..7]) == c.month + 1 && ParseNat(s[8..]) == c.day;
    ParseFields(s, c);
    assert MakeDay(c.year, c.month, c.day) == Day(t);
  }

  /** A date-shaped string whose fields read as a valid date parses to that date's midnight. */
  lemma ParseFields(s: string, c: Civil)
    requires IsDateShape(s) && ValidCivil(c)
    requires ParseNat(s[..4]) == c.year && ParseNat(s[5..7]) == c.month + 1 && ParseNat(s[8..]) == c.day
    ensures ParseUtcMidnight(s) == Some(MakeDay(c.year, c.month, c.day) * MsPerDay)
  {
  }

  /** A string naming a real date parses to the day it names. */
  lemma ParseOfRealDate(s: string)
    requires IsDateShape(s)
    requires 1 <= ParseNat(s[5..7]) <= 12
    requires 1 <= ParseNat(s[8..]) <= MonthLength(ParseNat(s[..4]), ParseNat(s[5..7]) - 1)
    ensures ParseUtcMidnight(s).Some?
    ensures CivilFromDay(Day(ParseUtcMidnight(s).value))
      == Civil(ParseNat(s[..4]), ParseNat(s[5..7]) - 1, ParseNat(s[8..]))
  {
    var c := Civil(ParseNat(s[..4]), ParseNat(s[5..7]) - 1, ParseNat(s[8..]));
    CivilRoundTrip(c);
    DayOfMidnight(DayOfCivil(c));
  }

  /** A day number past the end of the month, up to 31, lands in the next month. */
  lemma ParseRollsOver(s: string)
    requires IsDateShape(s)
    requires 1 <= ParseNat(s[5..7]) <= 12
    requires MonthLength(ParseNat(s[..4]), ParseNat(s[5..7]) - 1) < ParseNat(s[8..]) <= 31
    ensures ParseUtcMidnight(s).Some?
    ensures var y, m, d := ParseNat(s[..4]), ParseNat(s[5..7]) - 1, ParseNat(s[8..]);
      Day(ParseUtcMidnight(s).value) == MakeDay(y, m + 1, d - MonthLength(y, m))
  {
    var y, m, d := ParseNat(s[..4]), ParseNat(s[5..7]) - 1, ParseNat(s[8..]);
    NextMonthDayZero(y, m);
    assert m / 12 == 0 && m % 12 == m;
    assert MakeDay(y, m + 1, d - MonthLength(y, m)) == MakeDay(y, m + 1, 0) + d - MonthLength(y, m);
    DayOfMidnight(MakeDay(y, m, d));
  }
}
