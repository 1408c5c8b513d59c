/**
 * Weekly availability as the dashboard and the calendar wizard hold it: a
 * map from weekday (0 = Sunday) to the chosen periods, and the flat list of
 * (day, period) slots sent to the server.
 */
module WeeklySlots {
  import opened Lists
  import opened Labels
  import opened Validations

  /** A weekly slot: a weekday (0 = Sunday) and a period number. */
  datatype DayHour = DayHour(day: int, hour: int)

  /** `hoursByDay[day] || []`. */
  function HoursOf(hoursByDay: map<int, seq<int>>, d: int): seq<int> {
    if d in hoursByDay then hoursByDay[d] else []
  }

  /** The slots of one day, one per period, in the order of the periods. */
  function Row(d: int, hours: seq<int>): (r: seq<DayHour>)
    ensures |r| == |hours| && forall k :: 0 <= k < |hours| ==> r[k] == DayHour(d, hours[k])
  {
    seq(|hours|, k requires 0 <= k < |hours| => DayHour(d, hours[k]))
  }

  /** The slots for `days` in that order, each day's periods taken from `hoursByDay`. */
  function Flatten(days: seq<int>, hoursByDay: map<int, seq<int>>): seq<DayHour> {
    if days == [] then []
    else Flatten(days[..|days| - 1], hoursByDay) + Row(days[|days| - 1], HoursOf(hoursByDay, days[|days| - 1]))
  }

  /** A slot is sent exactly when its day is selected and its period is listed under that day. */
  lemma {:induction false} FlattenMembership(days: seq<int>, hoursByDay: map<int, seq<int>>, x: DayHour)
    ensures x in Flatten(days, hoursByDay) <==> x.day in days && x.hour in HoursOf(hoursByDay, x.day)
    decreases |days|
  {
    if days != [] {
      var init, last := days[..|days| - 1], days[|days| - 1];
      FlattenMembership(init, hoursByDay, x);
      assert days == init + [last];
      var row := Row(last, HoursOf(hoursByDay, last));
      if x in row {
        var k :| 0 <= k < |row| && row[k] == x;
      }
    }
  }

  /** The number of slots sent is the sum of the selected days' period counts. */
  function PeriodTotal(days: seq<int>, hoursByDay: map<int, seq<int>>): int {
    if days == [] then 0
    else PeriodTotal(days[..|days| - 1], hoursByDay) + |HoursOf(hoursByDay, days[|days| - 1])|
  }

  lemma {:induction false} FlattenLength(days: seq<int>, hoursByDay: map<int, seq<int>>)
    ensures |Flatten(days, hoursByDay)| == PeriodTotal(days, hoursByDay)
    decreases |days|
  {
    if days != [] {
      FlattenLength(days[..|days| - 1], hoursByDay);
    }
  }

  // ---------------------------------------------------------------------------
  // The string keys of `hasChanges`
  /** The JSON form of slots, `{ dayOfWeek, periodNumber }`. */
  function SlotInputs(s: seq<DayHour>): (r: seq<SlotInput>)
    ensures |r| == |s| && forall k :: 0 <= k < |s| ==> r[k] == SlotInput(s[k].day as real, s[k].hour as real)
  {
    seq(|s|, k requires 0 <= k < |s| => SlotInput(s[k].day as real, s[k].hour as real))
  }

  /**
   * The nested push loops that build a slot list: for each day in order,
   * one slot per period listed under it (`hoursByDay[day] || []`).
   */
  method CollectSlots(days: seq<int>, hoursByDay: map<int, seq<int>>) returns (slots: seq<DayHour>)
    ensures slots == Flatten(days, hoursByDay)
  {
    slots := [];
    var i := 0;
    while i < |days|
      invariant 0 <= i <= |days|
      invariant slots == Flatten(days[..i], hoursByDay)
    {
      var day := days[i];
      var hours := HoursOf(hoursByDay, day);
      ghost var before := slots;
      var j := 0;
      while j < |hours|
        invariant 0 <= j <= |hours|
        invariant slots == before + Row(day, hours[..j])
      {
        RowSnoc(day, hours, j);
        slots := slots + [DayHour(day, hours[j])];
        j := j + 1;
      }
      assert hours[..j] == hours;
      FlattenSnoc(days, hoursByDay, i);
      i := i + 1;
    }
    assert days[..i] == days;
  }

  lemma RowSnoc(d: int, hours: seq<int>, j: int)
    requires 0 <= j < |hours|
    ensures Row(d, hours[..j + 1]) == Row(d, hours[..j]) + [DayHour(d, hours[j])]
  {
  }

  lemma FlattenSnoc(days: seq<int>, hoursByDay: map<int, seq<int>>, i: int)
    requires 0 <= i < |days|
    ensures Flatten(days[..i + 1], hoursByDay) == Flatten(days[..i], hoursByDay) + Row(days[i], HoursOf(hoursByDay, days[i]))
  {
    assert days[..i + 1][..i] == days[..i];
  }

  /** The weekdays in the order `Object.entries` lists integer keys: 0..6 ascending. */
  const Weekdays: seq<int> := [0, 1, 2, 3, 4, 5, 6]

  /** `Array.from({ length: MAX_PERIODS }, (_, i) => i + 1)`: the periods offered, 1..12. */
  const OfferedHours: seq<int> := seq(MaxPeriods, i => i + 1)

  lemma OfferedHoursShape()
    ensures forall h :: h in OfferedHours <==> 1 <= h <= MaxPeriods
    ensures SortedBy(OfferedHours, IntLeq) && NoDuplicates(OfferedHours)
  {
    forall h | 1 <= h <= MaxPeriods ensures h in OfferedHours {
      assert OfferedHours[h - 1] == h;
    }
  }

  /**
   * `toggleHour(day, hour)`: flip `hour` in the day's list (removing it, or
   * appending it and sorting numerically).
   */
  function ToggleHourIn(hoursByDay: map<int, seq<int>>, day: int, hour: int): map<int, seq<int>> {
    IntLeqIsTotalOrder();
    hoursByDay[day := Toggle(HoursOf(hoursByDay, day), hour, IntLeq)]
  }

  /** Exactly `hour` changes membership in the day's list; every other day keeps its entry. */
  lemma ToggleHourFlips(hoursByDay: map<int, seq<int>>, day: int, hour: int)
    ensures var r := ToggleHourIn(hoursByDay, day, hour);
      && r.Keys == hoursByDay.Keys + {day}
      && (forall d :: d in r && d != day ==> r[d] == hoursByDay[d])
      && (hour in r[day] <==> hour !in HoursOf(hoursByDay, day))
      && (forall h :: h != hour ==> (h in r[day] <==> h in HoursOf(hoursByDay, day)))
  {
    IntLeqIsTotalOrder();
    var t := Toggle(HoursOf(hoursByDay, day), hour, IntLeq);
    assert ToggleHourIn(hoursByDay, day, hour) == hoursByDay[day := t];
  }

  /** The toggled list stays ascending, and stays free of repeats. */
  lemma ToggleHourKeepsShape(hoursByDay: map<int, seq<int>>, day: int, hour: int)
    requires SortedBy(HoursOf(hoursByDay, day), IntLeq)
    ensures SortedBy(ToggleHourIn(hoursByDay, day, hour)[day], IntLeq)
    ensures NoDuplicates(HoursOf(hoursByDay, day)) ==> NoDuplicates(ToggleHourIn(hoursByDay, day, hour)[day])
  {
    IntLeqIsTotalOrder();
    var current := HoursOf(hoursByDay, day);
    assert ToggleHourIn(hoursByDay, day, hour)[day] == Toggle(current, hour, IntLeq);
    ToggleKeepsSorted(current, hour, IntLeq);
    if NoDuplicates(current) {
      ToggleKeepsShape(current, hour, IntLeq);
    }
  }

  /** Toggling a period twice gives the day its list back; other days never change. */
  lemma ToggleHourTwice(hoursByDay: map<int, seq<int>>, day: int, hour: int)
    requires SortedBy(HoursOf(hoursByDay, day), IntLeq) && NoDuplicates(HoursOf(hoursByDay, day))
    ensures ToggleHourIn(ToggleHourIn(hoursByDay, day, hour), day, hour) == hoursByDay[day := HoursOf(hoursByDay, day)]
  {
    IntLeqIsTotalOrder();
    var current := HoursOf(hoursByDay, day);
    var once := Toggle(current, hour, IntLeq);
    var m1 := hoursByDay[day := once];
    assert ToggleHourIn(hoursByDay, day, hour) == m1;
    assert HoursOf(m1, day) == once;
    ToggleTwice(current, hour, IntLeq);
    assert ToggleHourIn(m1, day, hour) == m1[day := current];
    assert m1[day := current] == hoursByDay[day := current];
  }

  /** The slots sent are valid `availabilitySlots` entries when the days are 0..6 and the periods 1..12. */
  lemma FlattenIsValid(days: seq<int>, hoursByDay: map<int, seq<int>>)
    requires forall i :: 0 <= i < |days| ==> 0 <= days[i] <= 6
    requires forall d :: d in hoursByDay ==> forall k :: 0 <= k < |hoursByDay[d]| ==> 1 <= hoursByDay[d][k] <= MaxPeriods
    ensures AllValidSlots(SlotInputs(Flatten(days, hoursByDay)))
  {
    var f := Flatten(days, hoursByDay);
    forall k | 0 <= k < |f| ensures ValidSlotInput(SlotInputs(f)[k]) {
      FlattenMembership(days, hoursByDay, f[k]);
    }
  }
}
