/**
 * The four-step calendar wizard: name and grades, days, periods per day
 * and the maximum per slot, then a review from which the calendar is
 * submitted. Each step's fields change only while that step is shown, and
 * "next" is enabled only when the step is complete, so every step behind
 * the current one stays complete.
 */
module CalendarCreation {
  import opened Optional
  import opened Strings
  import opened Lists
  import opened Labels
  import opened Validations
  import opened WeeklySlots
  import opened WizardSteps

  /** The body of `POST /api/calendars`. */
  datatype CreateRequest = CreateRequest(
    name: string,
    allowedGrades: seq<int>,
    maxStudentsPerSlot: real,
    availabilitySlots: seq<DayHour>)

  /** What became of the request: created, refused with an optional message, or not delivered. */
  datatype CreateResponse = Created | Refused(message: Option<string>) | NetworkFailure

  const CreateFailedMessage: string := "יצירת הלוח נכשלה."
  const SomethingWrongMessage: string := "משהו השתבש. נסה שוב."

  /** The request as the server's schema reads it. */
  function AsInput(r: CreateRequest): (c: CalendarInput)
    ensures |c.allowedGrades| == |r.allowedGrades|
    ensures forall i :: 0 <= i < |r.allowedGrades| ==> c.allowedGrades[i] == r.allowedGrades[i] as real
    ensures c.name == r.name && c.maxStudentsPerSlot == r.maxStudentsPerSlot
    ensures c.availabilitySlots == SlotInputs(r.availabilitySlots)
  {
    CalendarInput(
      r.name,
      seq(|r.allowedGrades|, i requires 0 <= i < |r.allowedGrades| => r.allowedGrades[i] as real),
      r.maxStudentsPerSlot,
      SlotInputs(r.availabilitySlots))
  }

  /** A day's periods: ascending, each once, each an offered period. */
  predicate HoursShape(hours: seq<int>) {
    && SortedBy(hours, IntLeq) && NoDuplicates(hours)
    && forall h :: h in hours ==> 1 <= h <= MaxPeriods
  }

  /** `hoursByDay` without the entries of the days not in `days`. */
  function Restrict(hoursByDay: map<int, seq<int>>, days: seq<int>): (r: map<int, seq<int>>)
    ensures forall d :: d in r <==> d in hoursByDay && d in days
    ensures forall d :: d in r ==> r[d] == hoursByDay[d]
  {
    map d | d in hoursByDay && d in days :: hoursByDay[d]
  }

  /**
   * The pruning of `onDaysChange`: every key of a copy of `hoursByDay`
   * that is not among `days` is deleted. Keys are weekdays, so they are
   * visited as 0..6.
   */
  method PruneHours(hoursByDay: map<int, seq<int>>, days: seq<int>) returns (pruned: map<int, seq<int>>)
    requires forall d :: d in hoursByDay ==> 0 <= d <= 6
    ensures pruned == Restrict(hoursByDay, days)
  {
    pruned := hoursByDay;
    var k := 0;
    while k < 7
      invariant 0 <= k <= 7
      invariant pruned == map d | d in hoursByDay && (d >= k || d in days) :: hoursByDay[d]
    {
      if k in pruned && k !in days {
        pruned := pruned - {k};
      }
      k := k + 1;
    }
  }

  /** With weekday keys, the slots sent are exactly the periods listed in `hoursByDay`. */
  lemma SubmittedSlots(hoursByDay: map<int, seq<int>>, x: DayHour)
    requires forall d :: d in hoursByDay ==> 0 <= d <= 6
    ensures x in Flatten(Weekdays, hoursByDay) <==> x.day in hoursByDay && x.hour in hoursByDay[x.day]
  {
    FlattenMembership(Weekdays, hoursByDay, x);
    if x.day in hoursByDay {
      assert x.day in Weekdays by {
        assert Weekdays[x.day] == x.day;
      }
    }
  }

  /** Step 1 is complete: a name that is not blank and at least one grade. */
  predicate GradesStepDone(name: string, grades: seq<int>) {
    |Trim(name)| > 0 && |grades| > 0
  }

  /** Step 2 is complete: at least one day. */
  predicate DaysStepDone(days: seq<int>) {
    |days| > 0
  }

  /** Step 3 is complete: every selected day has a period, and the maximum is at least 1. */
  predicate HoursStepDone(days: seq<int>, hoursByDay: map<int, seq<int>>, max: real) {
    (forall d :: d in days ==> |HoursOf(hoursByDay, d)| > 0) && max >= 1.0
  }

  /** Offered grades, in default sort order, each once. */
  predicate GradeChoices(grades: seq<int>) {
    && (forall g :: g in grades ==> g in Grades)
    && SortedBy(grades, DefaultLeq) && NoDuplicates(grades)
  }

  /** Weekdays, in default sort order, each once. */
  predicate DayChoices(days: seq<int>) {
    && (forall d :: d in days ==> 0 <= d <= 6)
    && SortedBy(days, DefaultLeq) && NoDuplicates(days)
  }

  /** Periods are kept for selected days only, each day's list in shape. */
  predicate HoursChoices(days: seq<int>, hoursByDay: map<int, seq<int>>) {
    forall d :: d in hoursByDay ==> d in days && HoursShape(hoursByDay[d])
  }

  class CalendarWizard {
    var step: int
    var loading: bool
    var error: string
    var name: string
    var allowedGrades: seq<int>
    var selectedDays: seq<int>
    var hoursByDay: map<int, seq<int>>
    var maxStudentsPerSlot: real

    /** `canProceed()`: the test of the current step; the review step always may. */
    predicate CanProceed()
      reads this
    {
      if step == 1 then GradesStepDone(name, allowedGrades)
      else if step == 2 then DaysStepDone(selectedDays)
      else if step == 3 then HoursStepDone(selectedDays, hoursByDay, maxStudentsPerSlot)
      else step == 4
    }

    /**
     * The step is 1..4 and every earlier step is complete; grades are
     * offered grades and days are weekdays, each list in default sort order
     * and without repeats; periods are kept only for selected days.
     */
    ghost predicate Valid()
      reads this
    {
      && 1 <= step <= 4 && !loading
      && (step > 1 ==> GradesStepDone(name, allowedGrades))
      && (step > 2 ==> DaysStepDone(selectedDays))
      && (step > 3 ==> HoursStepDone(selectedDays, hoursByDay, maxStudentsPerSlot))
      && GradeChoices(allowedGrades) && DayChoices(selectedDays)
      && HoursChoices(selectedDays, hoursByDay)
    }

    /** The request `handleSubmit` sends. */
    function Payload(): CreateRequest
      reads this
    {
      CreateRequest(Trim(name), allowedGrades, maxStudentsPerSlot, Flatten(Weekdays, hoursByDay))
    }

    /** The initial state: step 1, nothing chosen, one student per slot. */
    constructor ()
      ensures step == 1 && !loading && error == ""
      ensures name == "" && allowedGrades == [] && selectedDays == [] && hoursByDay == map[]
      ensures maxStudentsPerSlot == 1.0
      ensures Valid()
    {
      step := 1;
      loading := false;
      error := "";
      name := "";
      allowedGrades := [];
      selectedDays := [];
      hoursByDay := map[];
      maxStudentsPerSlot := 1.0;
    }

    /** The "next" button: enabled only when the step is complete; `handleNext` stops at 4. */
    method Next()
      requires Valid()
      modifies this
      ensures Valid()
      ensures step == if old(step) < 4 && old(CanProceed()) then old(step) + 1 else old(step)
      ensures name == old(name) && allowedGrades == old(allowedGrades) && selectedDays == old(selectedDays)
      ensures hoursByDay == old(hoursByDay) && maxStudentsPerSlot == old(maxStudentsPerSlot)
      ensures loading == old(loading) && error == old(error)
    {
      if step < 4 && CanProceed() {
        step := step + 1;
      }
    }

    /** The "back" button: disabled on step 1, as `handleBack` stops at 1. */
    method Back()
      requires Valid()
      modifies this
      ensures Valid()
      ensures step == if old(step) > 1 then old(step) - 1 else old(step)
      ensures name == old(name) && allowedGrades == old(allowedGrades) && selectedDays == old(selectedDays)
      ensures hoursByDay == old(hoursByDay) && maxStudentsPerSlot == old(maxStudentsPerSlot)
      ensures loading == old(loading) && error == old(error)
    {
      if step > 1 {
        step := step - 1;
      }
    }

    /** `onNameChange` on step 1. */
    method NameChanged(newName: string)
      requires Valid() && step == 1
      modifies this
      ensures Valid()
      ensures name == newName
      ensures step == old(step) && allowedGrades == old(allowedGrades) && selectedDays == old(selectedDays)
      ensures hoursByDay == old(hoursByDay) && maxStudentsPerSlot == old(maxStudentsPerSlot)
      ensures loading == old(loading) && error == old(error)
    {
      name := newName;
    }

    /** `toggleGrade(grade)` on step 1, for one of the offered grades. */
    method GradeToggled(grade: int)
      requires Valid() && step == 1 && grade in Grades
      modifies this
      ensures Valid()
      ensures allowedGrades == ToggleChoice(old(allowedGrades), grade)
      ensures step == old(step) && name == old(name) && selectedDays == old(selectedDays)
      ensures hoursByDay == old(hoursByDay) && maxStudentsPerSlot == old(maxStudentsPerSlot)
      ensures loading == old(loading) && error == old(error)
    {
      ChoiceKeepsShape(allowedGrades, grade);
      allowedGrades := ToggleChoice(allowedGrades, grade);
    }

    /**
     * `toggleDay(day)` on step 2, for one of the weekdays, and
     * `onDaysChange`: the periods of a day no longer selected are dropped.
     */
    method DayToggled(day: int)
      requires Valid() && step == 2 && 0 <= day <= 6
      modifies this
      ensures Valid()
      ensures selectedDays == ToggleChoice(old(selectedDays), day)
      ensures hoursByDay == Restrict(old(hoursByDay), selectedDays)
      ensures step == old(step) && name == old(name) && allowedGrades == old(allowedGrades)
      ensures maxStudentsPerSlot == old(maxStudentsPerSlot)
      ensures loading == old(loading) && error == old(error)
    {
      var newDays := ToggleChoice(selectedDays, day);
      DayToggleKeepsChoices(selectedDays, hoursByDay, day);
      var hbd := PruneHours(hoursByDay, newDays);
      selectedDays := newDays;
      hoursByDay := hbd;
    }

    /** `toggleHour(day, hour)` on step 3, for a selected day and an offered period. */
    method HourToggled(day: int, hour: int)
      requires Valid() && step == 3 && day in selectedDays && hour in OfferedHours
      modifies this
      ensures Valid()
      ensures hoursByDay == ToggleHourIn(old(hoursByDay), day, hour)
      ensures step == old(step) && name == old(name) && allowedGrades == old(allowedGrades)
      ensures selectedDays == old(selectedDays) && maxStudentsPerSlot == old(maxStudentsPerSlot)
      ensures loading == old(loading) && error == old(error)
    {
      OfferedHourRange(hour);
      ToggleHourKeepsChoices(selectedDays, hoursByDay, day, hour);
      hoursByDay := ToggleHourIn(hoursByDay, day, hour);
    }

    /** `onMaxStudentsChange` on step 3, with the value read as `Number(value) || 1`. */
    method MaxChanged(typed: Option<real>)
      requires Valid() && step == 3
      modifies this
      ensures Valid()
      ensures maxStudentsPerSlot == MaxFallback(typed)
      ensures step == old(step) && name == old(name) && allowedGrades == old(allowedGrades)
      ensures selectedDays == old(selectedDays) && hoursByDay == old(hoursByDay)
      ensures loading == old(loading) && error == old(error)
    {
      maxStudentsPerSlot := MaxFallback(typed);
    }

    /**
     * The submit button of step 4 (enabled there in every reachable state)
     * and `handleSubmit`: the request sent, and the error once `response`
     * has come back.
     */
    method Submit(response: CreateResponse) returns (request: CreateRequest)
      requires Valid() && step == 4
      modifies this
      ensures Valid()
      ensures old(!loading && CanProceed())
      ensures request == old(Payload())
      ensures response.Created? ==> error == ""
      ensures response.Refused? ==>
        error == (if response.message.Some? && response.message.value != "" then response.message.value else CreateFailedMessage)
      ensures response.NetworkFailure? ==> error == SomethingWrongMessage
      ensures step == old(step) && name == old(name) && allowedGrades == old(allowedGrades)
      ensures selectedDays == old(selectedDays) && hoursByDay == old(hoursByDay)
      ensures maxStudentsPerSlot == old(maxStudentsPerSlot) && !loading
    {
      loading := true;
      error := "";
      var slots := CollectSlots(Weekdays, hoursByDay);
      request := CreateRequest(Trim(name), allowedGrades, maxStudentsPerSlot, slots);
      match response {
        case Refused(message) =>
          error := if message.Some? && message.value != "" then message.value else CreateFailedMessage;
        case Created =>
        case NetworkFailure =>
          error := SomethingWrongMessage;
      }
      loading := false;
    }

  }

  /**
   * What the review step submits passes the server's schema when every step
   * is complete (as `Valid` keeps it on step 4), provided the trimmed name
   * is at most 100 UTF-16 code units long and the maximum is a whole number up to 50:
   * the two bounds the wizard does not check itself.
   */
  lemma SubmissionAccepted(name: string, grades: seq<int>, days: seq<int>, hoursByDay: map<int, seq<int>>, max: real)
    requires GradesStepDone(name, grades) && DaysStepDone(days) && HoursStepDone(days, hoursByDay, max)
    requires GradeChoices(grades) && DayChoices(days) && HoursChoices(days, hoursByDay)
    requires Utf16Length(Trim(name)) <= 100 && IsInt(max) && max <= 50.0
    ensures ValidCalendarInput(AsInput(CreateRequest(Trim(name), grades, max, Flatten(Weekdays, hoursByDay))))
  {
    var c := AsInput(CreateRequest(Trim(name), grades, max, Flatten(Weekdays, hoursByDay)));
    forall i | 0 <= i < |c.allowedGrades| ensures IntIn(c.allowedGrades[i], 7, 12) {
      assert grades[i] in Grades;
    }
    SomeSlotSent(days, hoursByDay);
    forall d | d in hoursByDay ensures 0 <= d <= 6 && forall k :: 0 <= k < |hoursByDay[d]| ==> 1 <= hoursByDay[d][k] <= MaxPeriods {
      assert forall k :: 0 <= k < |hoursByDay[d]| ==> hoursByDay[d][k] in hoursByDay[d];
    }
    FlattenIsValid(Weekdays, hoursByDay);
  }

  /** A completed day step and hours step send at least one slot. */
  lemma SomeSlotSent(days: seq<int>, hoursByDay: map<int, seq<int>>)
    requires DaysStepDone(days) && (forall d :: d in days ==> |HoursOf(hoursByDay, d)| > 0)
    requires DayChoices(days)
    ensures |Flatten(Weekdays, hoursByDay)| > 0
  {
    var d := days[0];
    assert d in days;
    var h := HoursOf(hoursByDay, d)[0];
    FlattenMembership(Weekdays, hoursByDay, DayHour(d, h));
    assert Weekdays[d] == d;
  }

  /** Toggling an offered period keeps a day's list in shape. */
  lemma ToggleHourShape(hoursByDay: map<int, seq<int>>, day: int, hour: int)
    requires 1 <= hour <= MaxPeriods && HoursShape(HoursOf(hoursByDay, day))
    ensures HoursShape(ToggleHourIn(hoursByDay, day, hour)[day])
  {
    ToggleHourKeepsShape(hoursByDay, day, hour);
    ToggleHourFlips(hoursByDay, day, hour);
  }

  /** Toggling an offered period of a selected day keeps the periods kept for selected days, in shape. */
  lemma ToggleHourKeepsChoices(days: seq<int>, hoursByDay: map<int, seq<int>>, day: int, hour: int)
    requires HoursChoices(days, hoursByDay) && day in days && 1 <= hour <= MaxPeriods
    ensures HoursChoices(days, ToggleHourIn(hoursByDay, day, hour))
  {
    var r := ToggleHourIn(hoursByDay, day, hour);
    ToggleHourFlips(hoursByDay, day, hour);
    ToggleHourShape(hoursByDay, day, hour);
    forall d | d in r ensures d in days && HoursShape(r[d]) {
      if d != day {
        assert r[d] == hoursByDay[d];
      }
    }
  }

  /** Toggling a weekday keeps the days in shape, and pruning then keeps periods for selected days only. */
  lemma DayToggleKeepsChoices(days: seq<int>, hoursByDay: map<int, seq<int>>, day: int)
    requires DayChoices(days) && HoursChoices(days, hoursByDay) && 0 <= day <= 6
    ensures DayChoices(ToggleChoice(days, day))
    ensures HoursChoices(ToggleChoice(days, day), Restrict(hoursByDay, ToggleChoice(days, day)))
    ensures forall d :: d in hoursByDay ==> 0 <= d <= 6
  {
    ChoiceKeepsShape(days, day);
  }

  lemma OfferedHourRange(hour: int)
    requires hour in OfferedHours
    ensures 1 <= hour <= MaxPeriods
  {
    OfferedHoursShape();
  }
}
