/**
 * The student's month view: the month shown, its navigation, the 42-cell
 * grid of UTC dates, the calendar's slots grouped by weekday, and the
 * 24-hour rule that decides which cells and slots can be booked.
 */
module MonthView {
  import opened Optional
  import opened Strings
  import opened Lists
  import opened CalendarDates
  import opened SlotBadges
  import opened DayCells
  import Bookings

  // ---------------------------------------------------------------------------
  // Navigation

  /** The month after `(y, m)`, with December followed by January of the next year. */
  function MonthAfter(y: int, m: int): (r: (int, int))
    requires 0 <= m < 12
    ensures 0 <= r.1 < 12 && 12 * r.0 + r.1 == 12 * y + m + 1
  {
    if m == 11 then (y + 1, 0) else (y, m + 1)
  }

  /** The month before `(y, m)`, with January preceded by December of the year before. */
  function MonthBefore(y: int, m: int): (r: (int, int))
    requires 0 <= m < 12
    ensures 0 <= r.1 < 12 && 12 * r.0 + r.1 == 12 * y + m - 1
  {
    if m == 0 then (y - 1, 11) else (y, m - 1)
  }

  /** Going back a month undoes going forward one, and the other way round. */
  lemma MonthStepsUndo(y: int, m: int)
    requires 0 <= m < 12
    ensures MonthBefore(MonthAfter(y, m).0, MonthAfter(y, m).1) == (y, m)
    ensures MonthAfter(MonthBefore(y, m).0, MonthBefore(y, m).1) == (y, m)
  {
  }

  /**
   * Whether `Date.UTC`, which reads a year 0..99 as 1900 + year, still reads
   * the months before and after `(y, m)` as the neighbours of the month it
   * reads for `(y, m)` itself.
   */
  predicate YearsAgree(y: int, m: int)
    requires 0 <= m < 12
  {
    var p, q := MonthBefore(y, m), MonthAfter(y, m);
    MonthBefore(FullYear(y), m) == (FullYear(p.0), p.1) && MonthAfter(FullYear(y), m) == (FullYear(q.0), q.1)
  }

  /** They agree for every month except the four where the reading of the year changes. */
  lemma YearsAgreeExcept(y: int, m: int)
    requires 0 <= m < 12
    ensures YearsAgree(y, m) <==> !(m == 0 && (y == 0 || y == 100)) && !(m == 11 && (y == -1 || y == 99))
  {
  }

  /** Where the years agree, the neighbouring months are the ones `Date.UTC` reaches with the month index one off. */
  lemma NeighboursAsUtc(y: int, m: int, d: int)
    requires 0 <= m < 12 && YearsAgree(y, m)
    ensures DateUtc(MonthAfter(y, m).0, MonthAfter(y, m).1, d) == DateUtc(y, m + 1, d)
    ensures DateUtc(MonthBefore(y, m).0, MonthBefore(y, m).1, d) == DateUtc(y, m - 1, d)
  {
    var y' := FullYear(y);
    assert (m + 1) / 12 == (if m == 11 then 1 else 0) && (m + 1) % 12 == MonthAfter(y', m).1;
    assert (m - 1) / 12 == (if m == 0 then -1 else 0) && (m - 1) % 12 == MonthBefore(y', m).1;
  }

  // ---------------------------------------------------------------------------
  // The grid

  datatype Cell = Cell(date: int, isCurrentMonth: bool)

  /** The weekday of the 1st: the number of leading cells. */
  function FirstWeekday(y: int, m: int): (r: int)
    requires 0 <= m < 12
    ensures 0 <= r < 7
  {
    Weekday(DayFromCivil(y, m, 1))
  }

  /** The first day shown: the Sunday on or before the 1st of the month. */
  function GridStart(y: int, m: int): int
    requires 0 <= m < 12
  {
    DayFromCivil(y, m, 1) - FirstWeekday(y, m)
  }

  /** Six weeks of UTC midnights from day `start`; the `n` cells from index `first` on are marked current. */
  function Weeks(start: int, first: int, n: int): (g: seq<Cell>)
    ensures |g| == 42
  {
    seq(42, i requires 0 <= i < 42 => Cell((start + i) * MsPerDay, first <= i < first + n))
  }

  /** `count` cells at the UTC midnights of days `from`, `from + 1`, ... of one month. */
  function Run(year: int, month: int, from: int, count: nat, current: bool): (g: seq<Cell>)
    requires 0 <= month < 12
    ensures |g| == count
  {
    seq(count, i requires 0 <= i < count => Cell(DayFromCivil(year, month, from + i) * MsPerDay, current))
  }

  /** A run's cells are the UTC midnights of consecutive days. */
  lemma RunDays(year: int, month: int, from: int, count: nat, current: bool)
    requires 0 <= month < 12
    ensures var g := Run(year, month, from, count, current);
      forall i :: 0 <= i < count ==>
        && g[i].isCurrentMonth == current && g[i].date % MsPerDay == 0
        && Day(g[i].date) == DayFromCivil(year, month, 1) + from - 1 + i
  {
    var g := Run(year, month, from, count, current);
    forall i | 0 <= i < count
      ensures g[i].date % MsPerDay == 0 && Day(g[i].date) == DayFromCivil(year, month, 1) + from - 1 + i
    {
      DayOfMidnight(DayFromCivil(year, month, from + i));
    }
  }

  /** A run inside one month shows the days `from`, `from + 1`, ... of that month. */
  lemma RunDates(year: int, month: int, from: int, count: nat, current: bool)
    requires 0 <= month < 12 && 1 <= from && from + count - 1 <= MonthLength(year, month)
    ensures var g := Run(year, month, from, count, current);
      forall i :: 0 <= i < count ==>
        && g[i].isCurrentMonth == current && g[i].date % MsPerDay == 0
        && CivilFromDay(Day(g[i].date)) == Civil(year, month, from + i)
  {
    var g := Run(year, month, from, count, current);
    forall i | 0 <= i < count
      ensures g[i].date % MsPerDay == 0 && CivilFromDay(Day(g[i].date)) == Civil(year, month, from + i)
    {
      var c := Civil(year, month, from + i);
      assert ValidCivil(c) && g[i].date == DayOfCivil(c) * MsPerDay;
      CellDate(c);
    }
  }

  /**
   * The cells of the first loop: `Date.UTC(prevMonthYear, prevMonthMonth, d)`
   * for the last `firstDay` days `d` of the month before. For a month index
   * in 0..11, `Date.UTC` is `DayFromCivil` of the year `FullYear` reads.
   */
  function Leading(y: int, m: int): (g: seq<Cell>)
    requires 0 <= m < 12
    ensures |g| == FirstWeekday(FullYear(y), m)
  {
    var p := MonthBefore(y, m);
    var first, dip := FirstWeekday(FullYear(y), m), MonthLength(FullYear(p.0), p.1);
    Run(FullYear(p.0), p.1, dip - first + 1, first, false)
  }

  /** The cells of the second loop: `Date.UTC(currentYear, currentMonth, d)` for `d` from 1 to `daysInMonth`. */
  function Current(y: int, m: int): (g: seq<Cell>)
    requires 0 <= m < 12
    ensures |g| == MonthLength(FullYear(y), m)
  {
    Run(FullYear(y), m, 1, MonthLength(FullYear(y), m), true)
  }

  /** The cells of the third loop: `Date.UTC(nextMonthYear, nextMonthMonth, d)` for `d` from 1 to `remaining`. */
  function Trailing(y: int, m: int): (g: seq<Cell>)
    requires 0 <= m < 12
    ensures |g| == 42 - FirstWeekday(FullYear(y), m) - MonthLength(FullYear(y), m)
  {
    var q := MonthAfter(y, m);
    Run(FullYear(q.0), q.1, 1, 42 - FirstWeekday(FullYear(y), m) - MonthLength(FullYear(y), m), false)
  }

  /** The grid `calendarDays` builds for the month `(y, m)`. */
  function Grid(y: int, m: int): (g: seq<Cell>)
    requires 0 <= m < 12
    ensures |g| == 42
  {
    Leading(y, m) + Current(y, m) + Trailing(y, m)
  }

  /** The last day of the month before is the day before the 1st. */
  lemma PreviousMonthEnd(y: int, m: int)
    requires 0 <= m < 12
    ensures var p := MonthBefore(y, m);
      DayFromCivil(p.0, p.1, MonthLength(p.0, p.1)) == DayFromCivil(y, m, 1) - 1
  {
    var p := MonthBefore(y, m);
    NextMonth(p.0, p.1);
    if m == 0 {
      NextYear(y - 1);
    }
  }

  /** The 1st of the month after comes `MonthLength` days after the 1st of this one. */
  lemma NextMonthStart(y: int, m: int)
    requires 0 <= m < 12
    ensures var q := MonthAfter(y, m);
      DayFromCivil(q.0, q.1, 1) == DayFromCivil(y, m, 1) + MonthLength(y, m)
  {
    NextMonth(y, m);
    if m == 11 {
      NextYear(y);
    }
  }

  /** Where the years agree, the grid is six weeks from `GridStart`, the 1st to the last day marked current. */
  lemma GridIsWeeks(y: int, m: int)
    requires 0 <= m < 12 && YearsAgree(y, m)
    ensures var y' := FullYear(y);
      Grid(y, m) == Weeks(GridStart(y', m), FirstWeekday(y', m), MonthLength(y', m))
  {
    var y' := FullYear(y);
    var g, first, n := Grid(y, m), FirstWeekday(y', m), MonthLength(y', m);
    var p, q := MonthBefore(y', m), MonthAfter(y', m);
    var dip := MonthLength(p.0, p.1);
    var start := GridStart(y', m);
    var w := Weeks(start, first, n);
    PreviousMonthEnd(y', m);
    NextMonthStart(y', m);
    assert Leading(y, m) == Run(p.0, p.1, dip - first + 1, first, false);
    assert Trailing(y, m) == Run(q.0, q.1, 1, 42 - first - n, false);
    forall i | 0 <= i < 42 ensures g[i] == w[i] {
      if i < first {
        assert g[i] == Leading(y, m)[i];
        assert DayFromCivil(p.0, p.1, dip - first + 1 + i) == start + i;
      } else if i < first + n {
        assert g[i] == Current(y, m)[i - first];
      } else {
        assert g[i] == Trailing(y, m)[i - first - n];
        assert DayFromCivil(q.0, q.1, 1 + i - first - n) == start + i;
      }
    }
  }

  /** The cells are 42 consecutive UTC midnights. */
  lemma WeeksConsecutive(start: int, first: int, n: int)
    ensures var g := Weeks(start, first, n);
      forall i :: 0 <= i < 42 ==> g[i].date % MsPerDay == 0 && Day(g[i].date) == start + i
  {
    forall i | 0 <= i < 42
      ensures Weeks(start, first, n)[i].date % MsPerDay == 0 && Day(Weeks(start, first, n)[i].date) == start + i
    {
      DayOfMidnight(start + i);
    }
  }

  /** Where the years agree, the cells are 42 consecutive UTC midnights. */
  lemma GridConsecutive(y: int, m: int)
    requires 0 <= m < 12 && YearsAgree(y, m)
    ensures var g := Grid(y, m);
      forall i :: 0 <= i < 42 ==> g[i].date % MsPerDay == 0 && Day(g[i].date) == GridStart(FullYear(y), m) + i
  {
    var y' := FullYear(y);
    GridIsWeeks(y, m);
    WeeksConsecutive(GridStart(y', m), FirstWeekday(y', m), MonthLength(y', m));
  }

  /** Going back by the weekday gives a Sunday. */
  lemma WeekdayBack(z: int)
    ensures Weekday(z - Weekday(z)) == 0
  {
    var q := (z + 4) / 7;
    assert z + 4 == 7 * q + Weekday(z);
    assert z - Weekday(z) + 4 == 7 * q;
  }

  lemma WeeksWeekdays(start: int, first: int, n: int)
    requires Weekday(start) == 0
    ensures var g := Weeks(start, first, n);
      forall i :: 0 <= i < 42 ==> Weekday(Day(g[i].date)) == i % 7
  {
    WeeksConsecutive(start, first, n);
    forall i | 0 <= i < 42 ensures Weekday(start + i) == i % 7 {
      WeekdayAdd(start, i);
    }
  }

  /** Where the years agree, cell `i` falls on weekday `i % 7`: the first cell is a Sunday and every row runs to Saturday. */
  lemma GridWeekdays(y: int, m: int)
    requires 0 <= m < 12 && YearsAgree(y, m)
    ensures var g := Grid(y, m);
      forall i :: 0 <= i < 42 ==> Weekday(Day(g[i].date)) == i % 7
  {
    var y' := FullYear(y);
    GridIsWeeks(y, m);
    WeekdayBack(DayFromCivil(y', m, 1));
    WeeksWeekdays(GridStart(y', m), FirstWeekday(y', m), MonthLength(y', m));
  }

  /** A cell at the UTC midnight of a real date shows that date. */
  lemma CellDate(c: Civil)
    requires ValidCivil(c)
    ensures Day(DayOfCivil(c) * MsPerDay) == DayOfCivil(c) && CivilFromDay(Day(DayOfCivil(c) * MsPerDay)) == c
  {
    DayOfMidnight(DayOfCivil(c));
    CivilRoundTrip(c);
  }

  /**
   * The leading cells are the last days of the month before, in order, up to
   * its last day, in the year `Date.UTC` reads for it.
   */
  lemma GridLeading(y: int, m: int)
    requires 0 <= m < 12
    ensures var g, first, p := Grid(y, m), FirstWeekday(FullYear(y), m), MonthBefore(y, m);
      var dip := MonthLength(FullYear(p.0), p.1);
      forall i :: 0 <= i < first ==>
        !g[i].isCurrentMonth && CivilFromDay(Day(g[i].date)) == Civil(FullYear(p.0), p.1, dip - first + 1 + i)
  {
    var g, first, p := Grid(y, m), FirstWeekday(FullYear(y), m), MonthBefore(y, m);
    var dip := MonthLength(FullYear(p.0), p.1);
    var run := Leading(y, m);
    RunDates(FullYear(p.0), p.1, dip - first + 1, first, false);
    forall i | 0 <= i < first
      ensures !g[i].isCurrentMonth && CivilFromDay(Day(g[i].date)) == Civil(FullYear(p.0), p.1, dip - first + 1 + i)
    {
      assert g[i] == run[i];
    }
  }

  /**
   * Exactly the `daysInMonth` cells from index `firstDay` on are current, and
   * they are days 1, 2, ... of the month, in the year `Date.UTC` reads.
   */
  lemma GridCurrent(y: int, m: int)
    requires 0 <= m < 12
    ensures var g, first, n := Grid(y, m), FirstWeekday(FullYear(y), m), MonthLength(FullYear(y), m);
      && first + n <= 42
      && (forall i :: 0 <= i < 42 ==> (g[i].isCurrentMonth <==> first <= i < first + n))
      && (forall i :: first <= i < first + n ==> CivilFromDay(Day(g[i].date)) == Civil(FullYear(y), m, i - first + 1))
  {
    var y' := FullYear(y);
    var g, first, n := Grid(y, m), FirstWeekday(y', m), MonthLength(y', m);
    var b := Current(y, m);
    GridCurrentCells(y, m);
    RunDates(y', m, 1, n, true);
    forall i | first <= i < first + n ensures CivilFromDay(Day(g[i].date)) == Civil(y', m, i - first + 1) {
      assert g[i] == b[i - first];
    }
  }

  /** The current cells are exactly those from index `firstDay` to `firstDay + daysInMonth - 1`. */
  lemma GridCurrentCells(y: int, m: int)
    requires 0 <= m < 12
    ensures var g, first, n := Grid(y, m), FirstWeekday(FullYear(y), m), MonthLength(FullYear(y), m);
      forall i :: 0 <= i < 42 ==> (g[i].isCurrentMonth <==> first <= i < first + n)
  {
    var y' := FullYear(y);
    var g, first, n := Grid(y, m), FirstWeekday(y', m), MonthLength(y', m);
    var a, b, c := Leading(y, m), Current(y, m), Trailing(y, m);
    forall i | 0 <= i < 42 ensures g[i].isCurrentMonth <==> first <= i < first + n {
      if i < first {
        assert g[i] == a[i];
      } else if i < first + n {
        assert g[i] == b[i - first];
      } else {
        assert g[i] == c[i - first - n];
      }
    }
  }

  /** A current cell falls on the weekday of its column, whatever the year. */
  lemma CurrentWeekdays(y: int, m: int)
    requires 0 <= m < 12
    ensures var g := Grid(y, m);
      forall i :: 0 <= i < 42 && g[i].isCurrentMonth ==> Weekday(Day(g[i].date)) == i % 7
  {
    var y' := FullYear(y);
    var g, first, n := Grid(y, m), FirstWeekday(y', m), MonthLength(y', m);
    var b := Current(y, m);
    assert b == Run(y', m, 1, n, true);
    GridCurrentCells(y, m);
    RunDays(y', m, 1, n, true);
    forall i | 0 <= i < 42 && g[i].isCurrentMonth ensures Weekday(Day(g[i].date)) == i % 7 {
      assert g[i] == b[i - first];
      WeekdayAdd(DayFromCivil(y', m, 1), i - first);
    }
  }

  /** The trailing run holds at least five cells, the days of the month after from its 1st. */
  lemma TrailingDates(y: int, m: int)
    requires 0 <= m < 12
    ensures var c, q := Trailing(y, m), MonthAfter(y, m);
      && |c| >= 5
      && forall j :: 0 <= j < |c| ==> !c[j].isCurrentMonth && CivilFromDay(Day(c[j].date)) == Civil(FullYear(q.0), q.1, j + 1)
  {
    var y' := FullYear(y);
    var first, n, q := FirstWeekday(y', m), MonthLength(y', m), MonthAfter(y, m);
    assert Trailing(y, m) == Run(FullYear(q.0), q.1, 1, 42 - first - n, false);
    RunDates(FullYear(q.0), q.1, 1, 42 - first - n, false);
  }

  /**
   * The cells after the month's last day are the first days of the month
   * after, from its 1st, in the year `Date.UTC` reads for it.
   */
  lemma GridTrailing(y: int, m: int)
    requires 0 <= m < 12
    ensures var g, first, n, q := Grid(y, m), FirstWeekday(FullYear(y), m), MonthLength(FullYear(y), m), MonthAfter(y, m);
      && 42 - first - n >= 5
      && forall i :: first + n <= i < 42 ==>
        !g[i].isCurrentMonth && CivilFromDay(Day(g[i].date)) == Civil(FullYear(q.0), q.1, i - first - n + 1)
  {
    var y' := FullYear(y);
    var g, first, n, q := Grid(y, m), FirstWeekday(y', m), MonthLength(y', m), MonthAfter(y, m);
    var c := Trailing(y, m);
    TrailingDates(y, m);
    forall i | first + n <= i < 42
      ensures !g[i].isCurrentMonth && CivilFromDay(Day(g[i].date)) == Civil(FullYear(q.0), q.1, i - first - n + 1)
    {
      assert g[i] == c[i - first - n];
    }
  }

  // ---------------------------------------------------------------------------
  // The 24-hour rule

  /** `(date.getTime() - now.getTime()) / (1000 * 60 * 60)`, in exact arithmetic. */
  function HoursUntil(date: int, now: int): real {
    (date - now) as real / (1000 * 60 * 60) as real
  }

  /** `isBookable`: at least 24 hours ahead. */
  predicate IsBookable(date: int, now: int) {
    HoursUntil(date, now) >= 24.0
  }

  /** The client's rule is the server's lead-time test: exactly 24 hours ahead is bookable. */
  lemma BookableAsServer(date: int, now: int)
    ensures IsBookable(date, now) <==> !(date - now < Bookings.LeadTime)
    ensures IsBookable(date, now) <==> date - now >= MsPerDay
  {
    var x := (date - now) as real;
    assert HoursUntil(date, now) == x / 3600000.0;
    assert x / 3600000.0 >= 24.0 <==> x >= 86400000.0;
  }

  // ---------------------------------------------------------------------------
  // Slots by weekday

  /** The calendar's slots on weekday `d`, in the calendar's order. */
  function SlotsOfDay(slots: seq<ViewSlot>, d: int): (r: seq<ViewSlot>)
    ensures forall s :: s in r <==> s in slots && s.dayOfWeek == d
  {
    Filter(slots, (s: ViewSlot) => s.dayOfWeek == d)
  }

  /** `slotsByDay[dayOfWeek] || []`. */
  function SlotsOn(byDay: map<int, seq<ViewSlot>>, d: int): seq<ViewSlot> {
    if d in byDay then byDay[d] else []
  }

  lemma SlotsOfDaySnoc(slots: seq<ViewSlot>, k: nat, d: int)
    requires k < |slots|
    ensures SlotsOfDay(slots[..k + 1], d)
      == SlotsOfDay(slots[..k], d) + (if slots[k].dayOfWeek == d then [slots[k]] else [])
  {
    assert slots[..k + 1] == slots[..k] + [slots[k]];
    FilterAppend(slots[..k], [slots[k]], (s: ViewSlot) => s.dayOfWeek == d);
  }

  /** What one cell of the rendered grid receives. */
  datatype CellView = CellView(date: int, isCurrentMonth: bool, slots: seq<ViewSlot>, isBookable: bool, badges: seq<CellBadge>)

  /** The props of one `DayCell`: slots only in the current month, bookable only in the current month. */
  function CellOf(c: Cell, byDay: map<int, seq<ViewSlot>>, bookings: seq<ViewBooking>, maxStudents: int, now: int): CellView {
    var slots := if c.isCurrentMonth then SlotsOn(byDay, Weekday(Day(c.date))) else [];
    var bookable := c.isCurrentMonth && IsBookable(c.date, now);
    CellView(c.date, c.isCurrentMonth, slots, bookable, Badges(c.date, slots, bookings, maxStudents, bookable))
  }

  // ---------------------------------------------------------------------------
  // The component

  class MonthlyCalendar {
    /** `calendar.availabilitySlots` and `calendar.maxStudentsPerSlot`. */
    const calendarSlots: seq<ViewSlot>
    const maxStudents: int
    var currentYear: int
    var currentMonth: int
    /** The bookings of the last successful fetch. */
    var bookings: seq<ViewBooking>
    /** The slot and date the booking form is open for, if it is open. */
    var modal: Option<(ViewSlot, int)>

    predicate Valid()
      reads this
    {
      0 <= currentMonth < 12
    }

    /** Starts on the month of `today`, taken here in UTC. */
    constructor(slots: seq<ViewSlot>, maxStudentsPerSlot: int, today: int)
      ensures Valid()
      ensures calendarSlots == slots && maxStudents == maxStudentsPerSlot
      ensures currentYear == CivilFromDay(Day(today)).year && currentMonth == CivilFromDay(Day(today)).month
      ensures bookings == [] && modal == None
    {
      calendarSlots := slots;
      maxStudents := maxStudentsPerSlot;
      var c := CivilFromDay(Day(today));
      currentYear := c.year;
      currentMonth := c.month;
      bookings := [];
      modal := None;
    }

    /** `prevMonth`. */
    method PrevMonth()
      requires Valid()
      modifies this
      ensures Valid()
      ensures (currentYear, currentMonth) == MonthBefore(old(currentYear), old(currentMonth))
      ensures bookings == old(bookings) && modal == old(modal)
    {
      if currentMonth == 0 {
        currentMonth := 11;
        currentYear := currentYear - 1;
      } else {
        currentMonth := currentMonth - 1;
      }
    }

    /** `nextMonth`. */
    method NextMonth()
      requires Valid()
      modifies this
      ensures Valid()
      ensures (currentYear, currentMonth) == MonthAfter(old(currentYear), old(currentMonth))
      ensures bookings == old(bookings) && modal == old(modal)
    {
      if currentMonth == 11 {
        currentMonth := 0;
        currentYear := currentYear + 1;
      } else {
        currentMonth := currentMonth + 1;
      }
    }

    /** The end of `fetchBookings`: a successful response replaces the bookings, a failed one keeps them. */
    method BookingsFetched(response: Option<seq<ViewBooking>>)
      modifies this
      ensures bookings == (if response.Some? then response.value else old(bookings))
      ensures currentYear == old(currentYear) && currentMonth == old(currentMonth) && modal == old(modal)
    {
      if response.Some? {
        bookings := response.value;
      }
    }

    /** `handleSlotClick`: opens the booking form only 24 hours or more ahead. */
    method HandleSlotClick(slot: ViewSlot, date: int, now: int)
      modifies this
      ensures modal == (if IsBookable(date, now) then Some((slot, date)) else old(modal))
      ensures currentYear == old(currentYear) && currentMonth == old(currentMonth) && bookings == old(bookings)
    {
      var hoursUntil := HoursUntil(date, now);
      if hoursUntil < 24.0 {
        return;
      }
      modal := Some((slot, date));
    }

    /** `calendarDays`: the grid of the month shown, built by three loops. */
    method CalendarDays() returns (calendarDays: seq<Cell>)
      requires Valid()
      ensures calendarDays == Grid(currentYear, currentMonth)
    {
      var y, m := currentYear, currentMonth;
      var daysInMonth, firstDay, prevMonthYear, prevMonthMonth, daysInPrevMonth := GridCounts(y, m);
      var prevMonthDays := firstDay;
      calendarDays := PreviousMonthDays(y, m, prevMonthDays, prevMonthYear, prevMonthMonth, daysInPrevMonth);
      calendarDays := PushMonthDays(y, m, daysInMonth, calendarDays);
      calendarDays := PushNextMonthDays(y, m, calendarDays);
    }

    /** `slotsByDay`: the calendar's slots grouped by weekday, each group in the calendar's order. */
    method SlotsByDay() returns (slotsByDay: map<int, seq<ViewSlot>>)
      ensures forall d :: SlotsOn(slotsByDay, d) == SlotsOfDay(calendarSlots, d)
      ensures forall d :: d in slotsByDay ==> slotsByDay[d] != []
    {
      slotsByDay := map[];
      for k := 0 to |calendarSlots|
        invariant forall d :: SlotsOn(slotsByDay, d) == SlotsOfDay(calendarSlots[..k], d)
        invariant forall d :: d in slotsByDay ==> slotsByDay[d] != []
      {
        var slot := calendarSlots[k];
        ghost var before := slotsByDay;
        var group := if slot.dayOfWeek in slotsByDay then slotsByDay[slot.dayOfWeek] else [];
        slotsByDay := slotsByDay[slot.dayOfWeek := group + [slot]];
        forall d ensures SlotsOn(slotsByDay, d) == SlotsOfDay(calendarSlots[..k + 1], d) {
          SlotsOfDaySnoc(calendarSlots, k, d);
          assert SlotsOn(before, d) == SlotsOfDay(calendarSlots[..k], d);
        }
      }
      assert calendarSlots[..|calendarSlots|] == calendarSlots;
    }

    /** `calendarDays.map(...)`: the props handed to each `DayCell`. */
    method Render(now: int) returns (cells: seq<CellView>)
      requires Valid()
      ensures |cells| == 42
      ensures forall i :: 0 <= i < 42 ==>
        var c := Grid(currentYear, currentMonth)[i];
        && cells[i].date == c.date && cells[i].isCurrentMonth == c.isCurrentMonth
        && cells[i].slots == (if c.isCurrentMonth then SlotsOfDay(calendarSlots, Weekday(Day(c.date))) else [])
        && (cells[i].isBookable <==> c.isCurrentMonth && IsBookable(c.date, now))
        && cells[i].badges == Badges(c.date, cells[i].slots, bookings, maxStudents, cells[i].isBookable)
    {
      var calendarDays := CalendarDays();
      var slotsByDay := SlotsByDay();
      var shown, max := bookings, maxStudents;
      cells := seq(42, i requires 0 <= i < 42 => CellOf(calendarDays[i], slotsByDay, shown, max, now));
    }
  }

  /**
   * The counts `calendarDays` starts from: the month's length and first
   * weekday, the month before, and its length, each year read as the
   * `Date` constructor reads it.
   */
  method GridCounts(currentYear: int, currentMonth: int)
    returns (daysInMonth: int, firstDay: int, prevMonthYear: int, prevMonthMonth: int, daysInPrevMonth: int)
    requires 0 <= currentMonth < 12
    ensures daysInMonth == MonthLength(FullYear(currentYear), currentMonth)
    ensures firstDay == FirstWeekday(FullYear(currentYear), currentMonth)
    ensures (prevMonthYear, prevMonthMonth) == MonthBefore(currentYear, currentMonth)
    ensures daysInPrevMonth == MonthLength(FullYear(prevMonthYear), prevMonthMonth)
  {
    daysInMonth := GetDaysInMonth(currentYear, currentMonth);
    firstDay := GetFirstDayOfMonth(currentYear, currentMonth);
    prevMonthYear := if currentMonth == 0 then currentYear - 1 else currentYear;
    prevMonthMonth := if currentMonth == 0 then 11 else currentMonth - 1;
    daysInPrevMonth := GetDaysInMonth(prevMonthYear, prevMonthMonth);
  }

  /** The first loop of `calendarDays`: the trailing days of the month before. */
  method PreviousMonthDays(currentYear: int, currentMonth: int, prevMonthDays: int,
    prevMonthYear: int, prevMonthMonth: int, daysInPrevMonth: int) returns (calendarDays: seq<Cell>)
    requires 0 <= currentMonth < 12 && prevMonthDays == FirstWeekday(FullYear(currentYear), currentMonth)
    requires (prevMonthYear, prevMonthMonth) == MonthBefore(currentYear, currentMonth)
    requires daysInPrevMonth == MonthLength(FullYear(prevMonthYear), prevMonthMonth)
    ensures calendarDays == Leading(currentYear, currentMonth)
  {
    ghost var g := Leading(currentYear, currentMonth);
    calendarDays := [];
    var i := prevMonthDays - 1;
    while i >= 0
      invariant -1 <= i < prevMonthDays
      invariant calendarDays == g[..prevMonthDays - 1 - i]
    {
      ghost var k := prevMonthDays - 1 - i;
      LeadingStep(currentYear, currentMonth, prevMonthYear, prevMonthMonth, k);
      assert g[..k + 1] == g[..k] + [g[k]];
      calendarDays := calendarDays + [Cell(DateUtc(prevMonthYear, prevMonthMonth, daysInPrevMonth - i) * MsPerDay, false)];
      i := i - 1;
    }
    assert g[..prevMonthDays] == g;
  }

  /** The second loop of `calendarDays`: days 1 to `daysInMonth` of the month itself. */
  method PushMonthDays(currentYear: int, currentMonth: int, daysInMonth: int, cells: seq<Cell>) returns (calendarDays: seq<Cell>)
    requires 0 <= currentMonth < 12 && daysInMonth == MonthLength(FullYear(currentYear), currentMonth)
    ensures calendarDays == cells + Current(currentYear, currentMonth)
  {
    ghost var g := Current(currentYear, currentMonth);
    calendarDays := cells;
    var i := 1;
    while i <= daysInMonth
      invariant 1 <= i <= daysInMonth + 1
      invariant calendarDays == cells + g[..i - 1]
    {
      CurrentStep(currentYear, currentMonth, i);
      AppendStep(cells, g, i);
      calendarDays := calendarDays + [Cell(DateUtc(currentYear, currentMonth, i) * MsPerDay, true)];
      i := i + 1;
    }
    assert g[..daysInMonth] == g;
  }

  /** Cell `k` of the leading run is what the first loop pushes when `k` cells are in place. */
  lemma LeadingStep(y: int, m: int, py: int, pm: int, k: int)
    requires 0 <= m < 12 && (py, pm) == MonthBefore(y, m)
    requires 0 <= k < FirstWeekday(FullYear(y), m)
    ensures var first, dip := FirstWeekday(FullYear(y), m), MonthLength(FullYear(py), pm);
      Leading(y, m)[k] == Cell(DateUtc(py, pm, dip - (first - 1 - k)) * MsPerDay, false)
  {
    var first, dip := FirstWeekday(FullYear(y), m), MonthLength(FullYear(py), pm);
    DateUtcInMonth(py, pm, dip - (first - 1 - k));
  }

  /** Cell `i - 1` of the current run is what the second loop pushes for day `i`. */
  lemma CurrentStep(y: int, m: int, i: int)
    requires 0 <= m < 12 && 1 <= i <= MonthLength(FullYear(y), m)
    ensures Current(y, m)[i - 1] == Cell(DateUtc(y, m, i) * MsPerDay, true)
  {
    DateUtcInMonth(y, m, i);
  }

  /** Cell `i - 1` of the trailing run is what the third loop pushes for day `i` of the month after. */
  lemma TrailingStep(y: int, m: int, ny: int, nm: int, i: int)
    requires 0 <= m < 12 && (ny, nm) == MonthAfter(y, m)
    requires 1 <= i <= 42 - FirstWeekday(FullYear(y), m) - MonthLength(FullYear(y), m)
    ensures Trailing(y, m)[i - 1] == Cell(DateUtc(ny, nm, i) * MsPerDay, false)
  {
    DateUtcInMonth(ny, nm, i);
  }

  /** The third loop of `calendarDays`: the leading days of the month after, up to 42 cells. */
  method PushNextMonthDays(currentYear: int, currentMonth: int, cells: seq<Cell>) returns (calendarDays: seq<Cell>)
    requires 0 <= currentMonth < 12
    requires |cells| == FirstWeekday(FullYear(currentYear), currentMonth) + MonthLength(FullYear(currentYear), currentMonth)
    ensures calendarDays == cells + Trailing(currentYear, currentMonth)
  {
    ghost var g := Trailing(currentYear, currentMonth);
    calendarDays := cells;
    var remaining := 42 - |calendarDays|;
    var nextMonthYear := if currentMonth == 11 then currentYear + 1 else currentYear;
    var nextMonthMonth := if currentMonth == 11 then 0 else currentMonth + 1;
    var i := 1;
    while i <= remaining
      invariant 1 <= i <= remaining + 1
      invariant calendarDays == cells + g[..i - 1]
    {
      TrailingStep(currentYear, currentMonth, nextMonthYear, nextMonthMonth, i);
      AppendStep(cells, g, i);
      calendarDays := calendarDays + [Cell(DateUtc(nextMonthYear, nextMonthMonth, i) * MsPerDay, false)];
      i := i + 1;
    }
    assert g[..remaining] == g;
  }

  /** A current-month cell lists exactly the calendar's slots on its weekday, which is its column. */
  lemma CellSlots(slots: seq<ViewSlot>, y: int, m: int, i: int, s: ViewSlot)
    requires 0 <= m < 12 && 0 <= i < 42
    requires Grid(y, m)[i].isCurrentMonth
    ensures s in SlotsOfDay(slots, Weekday(Day(Grid(y, m)[i].date))) <==> s in slots && s.dayOfWeek == i % 7
  {
    CurrentWeekdays(y, m);
  }

  // ---------------------------------------------------------------------------
  // The fetch range

  /** The `startDate` and `endDate` query parameters of `fetchBookings`. */
  function FetchRange(y: int, m: int): (string, string)
    requires 0 <= m < 12
  {
    QueryRange(y, m, GetDaysInMonth(y, m))
  }

  /** The two query dates once `daysInMonth` is known. */
  function QueryRange(y: int, m: int, daysInMonth: int): (string, string) {
    var month := PadStart(IntToString(m + 1), 2, '0');
    (IntToString(y) + "-" + month + "-01",
     IntToString(y) + "-" + month + "-" + PadStart(IntToString(daysInMonth), 2, '0'))
  }

  /**
   * For four-digit years the query names the month's first and last days
   * as `formatDate` writes them, so the listing's parser reads them as the
   * UTC midnights of those days.
   */
  lemma FetchRangeIsMonth(y: int, m: int)
    requires 1000 <= y <= 9999 && 0 <= m < 12
    ensures var r, n := FetchRange(y, m), GetDaysInMonth(y, m);
      && r.0 == FormatDate(MakeDay(y, m, 1) * MsPerDay)
      && r.1 == FormatDate(MakeDay(y, m, n) * MsPerDay)
      && IsDateShape(r.0) && ParseUtcMidnight(r.0) == Some(MakeDay(y, m, 1) * MsPerDay)
      && IsDateShape(r.1) && ParseUtcMidnight(r.1) == Some(MakeDay(y, m, n) * MsPerDay)
  {
    FetchRangeTexts(y, m);
    DayTextOf(y, m, 1);
    DayTextOf(y, m, GetDaysInMonth(y, m));
  }

  /** The two query dates are the month's first and last days written as `YYYY-MM-DD`. */
  lemma FetchRangeTexts(y: int, m: int)
    requires 1000 <= y <= 9999 && 0 <= m < 12
    ensures var n := MonthLength(y, m);
      && ValidCivil(Civil(y, m, 1)) && ValidCivil(Civil(y, m, n))
      && QueryRange(y, m, n) == (DateText(Civil(y, m, 1)), DateText(Civil(y, m, n)))
  {
    var n := MonthLength(y, m);
    var month := PadStart(IntToString(m + 1), 2, '0');
    QueryDate(y, m, 1);
    QueryDate(y, m, n);
    assert PadStart(IntToString(1), 2, '0') == "01";
    assert IntToString(y) + "-" + month + "-01" == IntToString(y) + "-" + month + "-" + PadStart(IntToString(1), 2, '0');
  }

  /** A date written as the query writes it, `${y}-${MM}-${DD}`, is its `YYYY-MM-DD` text. */
  lemma QueryDate(y: int, m: int, d: int)
    requires 1000 <= y <= 9999 && 0 <= m < 12 && 1 <= d <= MonthLength(y, m)
    ensures ValidCivil(Civil(y, m, d))
    ensures IntToString(y) + "-" + PadStart(IntToString(m + 1), 2, '0') + "-" + PadStart(IntToString(d), 2, '0')
      == DateText(Civil(y, m, d))
  {
    YearDigits(y);
    assert IntToString(m + 1) == NatToString(m + 1);
    assert IntToString(d) == NatToString(d);
  }

  /** `${y}` is the four-digit year of `toISOString` for the years 1000 to 9999. */
  lemma YearDigits(y: int)
    requires 1000 <= y <= 9999
    ensures IntToString(y) == YearText(y)
  {
    assert Pow10(3) == 1000;
    NatToStringLengthBelow(y, 4);
  }

  /** Day `d` of a month of a four-digit year, at UTC midnight: its text and how it parses back. */
  lemma DayTextOf(y: int, m: int, d: int)
    requires 1000 <= y <= 9999 && 0 <= m < 12 && 1 <= d <= GetDaysInMonth(y, m)
    ensures var t := MakeDay(y, m, d) * MsPerDay;
      && FormatDate(t) == DateText(Civil(y, m, d))
      && IsDateShape(FormatDate(t)) && ParseUtcMidnight(FormatDate(t)) == Some(t)
  {
    var c := Civil(y, m, d);
    var t := MakeDay(y, m, d) * MsPerDay;
    DayOfMidnight(MakeDay(y, m, d));
    CivilRoundTrip(c);
    FormatThenParse(t);
  }
}
