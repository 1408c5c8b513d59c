/**
 * The bookings API: `POST` admits one student into a slot on a date after
 * an ordered series of checks and one atomic read-check-insert on the
 * ledger; `GET` lists a calendar's bookings in a date range, by date.
 * Times are integer milliseconds; a booking's date is a UTC midnight.
 */
module Bookings {
  import opened Optional
  import opened Strings
  import opened Lists
  import opened CalendarDates
  import opened Validations

  datatype Calendar = Calendar(
    id: string,
    code: string,
    isActive: bool,
    allowedGrades: seq<int>,
    maxStudentsPerSlot: int)

  /** An availability slot: a period on one weekday of a calendar. */
  datatype Slot = Slot(calendar: Calendar, dayOfWeek: int, periodNumber: int)

  /** A stored booking: slot id, UTC midnight of the day, student name and grade. */
  datatype Booking = Booking(slotId: string, date: int, studentName: string, studentGrade: int)

  /** The answers of `POST`, in the order the checks are made. */
  datatype Outcome =
    | InvalidInput
    | NotFound
    | WeekdayMismatch
    | GradeNotAllowed
    | DateInPast
    | InsufficientLeadTime
    | GradeExclusive(existingGrade: int)
    | SlotFull
    | Duplicate
    | Created(booking: Booking)

  /** Where the checks before the transaction leave a request. */
  datatype Screening =
    | Rejected(reason: Outcome)
    | Passed(slotId: string, slot: Slot, date: int, grade: int)

  const LeadTime: int := 24 * MsPerHour

  // ---------------------------------------------------------------------------
  // The checks before the transaction

  /** The slot is unknown, belongs to a calendar with another code, or its calendar is inactive. */
  predicate Unresolvable(slots: map<string, Slot>, input: BookingInput) {
    || input.availabilitySlotId !in slots
    || slots[input.availabilitySlotId].calendar.code != input.calendarCode
    || !slots[input.availabilitySlotId].calendar.isActive
  }

  /** The requested date, read at UTC midnight, is not a date or falls on another weekday than the slot's. */
  predicate WrongWeekday(slot: Slot, date: Option<int>) {
    date.None? || Weekday(Day(date.value)) != slot.dayOfWeek
  }

  /** The schema check, then the five guards of `POST`, each answering early. */
  function Screen(slots: map<string, Slot>, input: BookingInput, now: int): (r: Screening)
    ensures r.Rejected? ==> !r.reason.Created?
    ensures r.Passed? ==>
      && ValidBookingInput(input) && r.slotId == input.availabilitySlotId
      && r.slotId in slots && r.slot == slots[r.slotId]
      && ParseUtcMidnight(input.date) == Some(r.date) && r.grade == input.studentGrade.Floor
  {
    if !ValidBookingInput(input) then Rejected(InvalidInput)
    else
      var bookingDate := ParseUtcMidnight(input.date);
      if Unresolvable(slots, input) then Rejected(NotFound)
      else
        var slot := slots[input.availabilitySlotId];
        var grade := input.studentGrade.Floor;
        if WrongWeekday(slot, bookingDate) then Rejected(WeekdayMismatch)
        else if grade !in slot.calendar.allowedGrades then Rejected(GradeNotAllowed)
        else if bookingDate.value < MidnightOf(now) then Rejected(DateInPast)
        else if bookingDate.value - now < LeadTime then Rejected(InsufficientLeadTime)
        else Passed(input.availabilitySlotId, slot, bookingDate.value, grade)
  }

  // ---------------------------------------------------------------------------
  // The transaction

  predicate SameSlotDate(a: Booking, b: Booking) {
    a.slotId == b.slotId && a.date == b.date
  }

  /** `findMany({ where: { availabilitySlotId, date } })`: the bookings of one slot on one date. */
  function Existing(bookings: seq<Booking>, slotId: string, date: int): (r: seq<Booking>)
    ensures |r| <= |bookings|
    ensures forall b :: b in r <==> b in bookings && b.slotId == slotId && b.date == date
  {
    Filter(bookings, (b: Booking) => b.slotId == slotId && b.date == date)
  }

  lemma ExistingAppend(bookings: seq<Booking>, x: Booking, slotId: string, date: int)
    ensures Existing(bookings + [x], slotId, date)
      == Existing(bookings, slotId, date) + (if x.slotId == slotId && x.date == date then [x] else [])
  {
    FilterAppend(bookings, [x], (b: Booking) => b.slotId == slotId && b.date == date);
    assert [x][1..] == [];
  }

  /** Some booking in `existing` has `name` once both are trimmed and lower-cased. */
  predicate NameTaken(existing: seq<Booking>, name: string) {
    exists k :: 0 <= k < |existing| && Lower(existing[k].studentName) == Lower(Trim(name))
  }

  /** Grade exclusivity against the first booking, then capacity, then the duplicate name. */
  function Transact(existing: seq<Booking>, p: Screening, name: string): (r: Outcome)
    requires p.Passed?
    ensures r.Created? ==> r.booking == Booking(p.slotId, p.date, Trim(name), p.grade)
  {
    if |existing| > 0 && existing[0].studentGrade != p.grade then GradeExclusive(existing[0].studentGrade)
    else if |existing| >= p.slot.calendar.maxStudentsPerSlot then SlotFull
    else if NameTaken(existing, name) then Duplicate
    else Created(Booking(p.slotId, p.date, Trim(name), p.grade))
  }

  /** What `POST` answers for `input` at time `now`, given the slots and the stored bookings. */
  function Decide(slots: map<string, Slot>, bookings: seq<Booking>, input: BookingInput, now: int): (r: Outcome)
    ensures r.Created? ==>
      && ValidBookingInput(input)
      && r.booking.slotId == input.availabilitySlotId
      && Some(r.booking.date) == ParseUtcMidnight(input.date)
      && r.booking.studentName == Trim(input.studentName)
      && r.booking.studentGrade as real == input.studentGrade
  {
    var s := Screen(slots, input, now);
    if s.Rejected? then s.reason
    else Transact(Existing(bookings, s.slotId, s.date), s, input.studentName)
  }

  // ---------------------------------------------------------------------------
  // The ledger and its invariant

  /** Every booking names a known slot, has a trimmed name, and its slot and date hold no more than the maximum. */
  ghost predicate WithinCapacity(slots: map<string, Slot>, bookings: seq<Booking>) {
    forall i :: 0 <= i < |bookings| ==>
      bookings[i].slotId in slots && IsTrimmed(bookings[i].studentName)
      && |Existing(bookings, bookings[i].slotId, bookings[i].date)|
           <= slots[bookings[i].slotId].calendar.maxStudentsPerSlot
  }

  /** The bookings of one slot on one date are all of one grade. */
  ghost predicate OneGradePerSlotDate(bookings: seq<Booking>) {
    forall i, j :: 0 <= i < |bookings| && 0 <= j < |bookings| && SameSlotDate(bookings[i], bookings[j]) ==>
      bookings[i].studentGrade == bookings[j].studentGrade
  }

  /** The bookings of one slot on one date have distinct names after lower-casing. */
  ghost predicate DistinctNamesPerSlotDate(bookings: seq<Booking>) {
    forall i, j :: 0 <= i < j < |bookings| && SameSlotDate(bookings[i], bookings[j]) ==>
      Lower(bookings[i].studentName) != Lower(bookings[j].studentName)
  }

  /** What every store of bookings reached through `POST` satisfies. */
  ghost predicate LedgerInvariant(slots: map<string, Slot>, bookings: seq<Booking>) {
    WithinCapacity(slots, bookings) && OneGradePerSlotDate(bookings) && DistinctNamesPerSlotDate(bookings)
  }

  /** The bookings already there for the slot and date of `x` leave room, have its grade and other names. */
  ghost predicate Fits(slots: map<string, Slot>, bookings: seq<Booking>, x: Booking) {
    var e := Existing(bookings, x.slotId, x.date);
    && x.slotId in slots && IsTrimmed(x.studentName)
    && |e| < slots[x.slotId].calendar.maxStudentsPerSlot
    && (|e| > 0 ==> e[0].studentGrade == x.studentGrade)
    && (forall k :: 0 <= k < |e| ==> Lower(e[k].studentName) != Lower(x.studentName))
  }

  lemma AppendWithinCapacity(slots: map<string, Slot>, bookings: seq<Booking>, x: Booking)
    requires WithinCapacity(slots, bookings) && Fits(slots, bookings, x)
    ensures WithinCapacity(slots, bookings + [x])
  {
    var after := bookings + [x];
    forall i | 0 <= i < |after|
      ensures after[i].slotId in slots && IsTrimmed(after[i].studentName)
      ensures |Existing(after, after[i].slotId, after[i].date)| <= slots[after[i].slotId].calendar.maxStudentsPerSlot
    {
      ExistingAppend(bookings, x, after[i].slotId, after[i].date);
    }
  }

  lemma AppendOneGrade(slots: map<string, Slot>, bookings: seq<Booking>, x: Booking)
    requires OneGradePerSlotDate(bookings) && Fits(slots, bookings, x)
    ensures OneGradePerSlotDate(bookings + [x])
  {
    var e := Existing(bookings, x.slotId, x.date);
    var after := bookings + [x];
    forall i, j | 0 <= i < |after| && 0 <= j < |after| && SameSlotDate(after[i], after[j])
      ensures after[i].studentGrade == after[j].studentGrade
    {
      if i < |bookings| && j == |bookings| {
        SameGradeAsFirst(bookings, e, i);
      } else if i == |bookings| && j < |bookings| {
        SameGradeAsFirst(bookings, e, j);
      }
    }
  }

  lemma AppendDistinctNames(slots: map<string, Slot>, bookings: seq<Booking>, x: Booking)
    requires DistinctNamesPerSlotDate(bookings) && Fits(slots, bookings, x)
    ensures DistinctNamesPerSlotDate(bookings + [x])
  {
    var e := Existing(bookings, x.slotId, x.date);
    var after := bookings + [x];
    forall i, j | 0 <= i < j < |after| && SameSlotDate(after[i], after[j])
      ensures Lower(after[i].studentName) != Lower(after[j].studentName)
    {
      if j == |bookings| {
        assert after[i] in e;
        var k :| 0 <= k < |e| && e[k] == after[i];
      }
    }
  }

  /** Appending a booking that fits keeps the invariant. */
  lemma AppendKeepsInvariant(slots: map<string, Slot>, bookings: seq<Booking>, x: Booking)
    requires LedgerInvariant(slots, bookings) && Fits(slots, bookings, x)
    ensures LedgerInvariant(slots, bookings + [x])
  {
    AppendWithinCapacity(slots, bookings, x);
    AppendOneGrade(slots, bookings, x);
    AppendDistinctNames(slots, bookings, x);
  }

  /** Admitting a booking keeps the invariant. */
  lemma AdmitPreservesInvariant(slots: map<string, Slot>, bookings: seq<Booking>, input: BookingInput, now: int)
    requires LedgerInvariant(slots, bookings)
    requires Decide(slots, bookings, input, now).Created?
    ensures LedgerInvariant(slots, bookings + [Decide(slots, bookings, input, now).booking])
  {
    var s := Screen(slots, input, now);
    var x := Decide(slots, bookings, input, now).booking;
    var e := Existing(bookings, x.slotId, x.date);
    assert !NameTaken(e, input.studentName);
    TrimIsInfix(input.studentName);
    AppendKeepsInvariant(slots, bookings, x);
  }

  /** Under the invariant, a booking of the same slot and date as `e` has the grade of `e[0]`. */
  lemma SameGradeAsFirst(bookings: seq<Booking>, e: seq<Booking>, i: int)
    requires OneGradePerSlotDate(bookings)
    requires 0 <= i < |bookings| && |e| > 0
    requires e == Existing(bookings, bookings[i].slotId, bookings[i].date)
    ensures bookings[i].studentGrade == e[0].studentGrade
  {
    assert e[0] in bookings;
  }

  /** A store of bookings with its (fixed) slots; `Admit` is the transaction of `POST`. */
  class Ledger {
    const slots: map<string, Slot>
    var bookings: seq<Booking>

    ghost predicate Valid()
      reads this
    {
      LedgerInvariant(slots, bookings)
    }

    constructor (slots: map<string, Slot>)
      ensures this.slots == slots && bookings == [] && Valid()
    {
      this.slots := slots;
      bookings := [];
    }

    /**
     * `POST /api/bookings`: the checks in order, each answering early, then,
     * in one atomic step, the bookings of the slot on that date are read and
     * checked and, when all checks pass, the one new booking is added.
     */
    method Admit(input: BookingInput, now: int) returns (out: Outcome)
      requires Valid()
      modifies this
      ensures Valid()
      ensures out == Decide(slots, old(bookings), input, now)
      ensures out.Created? ==> bookings == old(bookings) + [out.booking]
      ensures !out.Created? ==> bookings == old(bookings)
    {
      if !ValidBookingInput(input) {
        return InvalidInput;
      }
      var bookingDate := ParseUtcMidnight(input.date);
      if input.availabilitySlotId !in slots {
        return NotFound;
      }
      var slot := slots[input.availabilitySlotId];
      if slot.calendar.code != input.calendarCode || !slot.calendar.isActive {
        return NotFound;
      }
      if bookingDate.None? || Weekday(Day(bookingDate.value)) != slot.dayOfWeek {
        return WeekdayMismatch;
      }
      var grade := input.studentGrade.Floor;
      if grade !in slot.calendar.allowedGrades {
        return GradeNotAllowed;
      }
      var today := MidnightOf(now);
      if bookingDate.value < today {
        return DateInPast;
      }
      if bookingDate.value - now < LeadTime {
        return InsufficientLeadTime;
      }

      ghost var passed := Passed(input.availabilitySlotId, slot, bookingDate.value, grade);
      assert Screen(slots, input, now) == passed;
      var existing := Existing(bookings, input.availabilitySlotId, bookingDate.value);
      assert Decide(slots, bookings, input, now) == Transact(existing, passed, input.studentName);
      if |existing| > 0 && existing[0].studentGrade != grade {
        return GradeExclusive(existing[0].studentGrade);
      }
      if |existing| >= slot.calendar.maxStudentsPerSlot {
        return SlotFull;
      }
      if NameTaken(existing, input.studentName) {
        return Duplicate;
      }
      var booking := Booking(input.availabilitySlotId, bookingDate.value, Trim(input.studentName), grade);
      AdmitPreservesInvariant(slots, bookings, input, now);
      bookings := bookings + [booking];
      return Created(booking);
    }
  }

  // ---------------------------------------------------------------------------
  // Properties of the checks

  /** A request that is not even well formed is refused before anything else. */
  lemma InvalidInputFirst(slots: map<string, Slot>, bookings: seq<Booking>, input: BookingInput, now: int)
    ensures Decide(slots, bookings, input, now) == InvalidInput <==> !ValidBookingInput(input)
  {
  }

  /** A well-formed request is not found exactly when its slot or calendar does not resolve. */
  lemma NotFoundRule(slots: map<string, Slot>, bookings: seq<Booking>, input: BookingInput, now: int)
    requires ValidBookingInput(input)
    ensures Decide(slots, bookings, input, now) == NotFound <==> Unresolvable(slots, input)
  {
  }

  /** Once the slot resolves, the weekday decides the next answer. */
  lemma WeekdayRule(slots: map<string, Slot>, bookings: seq<Booking>, input: BookingInput, now: int)
    requires ValidBookingInput(input) && !Unresolvable(slots, input)
    ensures Decide(slots, bookings, input, now) == WeekdayMismatch
      <==> WrongWeekday(slots[input.availabilitySlotId], ParseUtcMidnight(input.date))
  {
  }

  /** Once the weekday matches, a grade outside the calendar's grades is refused. */
  lemma GradeRule(slots: map<string, Slot>, bookings: seq<Booking>, input: BookingInput, now: int)
    requires ValidBookingInput(input) && !Unresolvable(slots, input)
    requires !WrongWeekday(slots[input.availabilitySlotId], ParseUtcMidnight(input.date))
    ensures Decide(slots, bookings, input, now) == GradeNotAllowed
      <==> input.studentGrade.Floor !in slots[input.availabilitySlotId].calendar.allowedGrades
  {
  }

  /**
   * After the grade check, the request is turned away for its date exactly
   * when it is less than 24 hours ahead (so exactly 24 hours is admitted);
   * the past-date answer only names the reason.
   */
  lemma LeadTimeRule(slots: map<string, Slot>, bookings: seq<Booking>, input: BookingInput, now: int)
    requires ValidBookingInput(input) && !Unresolvable(slots, input)
    requires !WrongWeekday(slots[input.availabilitySlotId], ParseUtcMidnight(input.date))
    requires input.studentGrade.Floor in slots[input.availabilitySlotId].calendar.allowedGrades
    ensures var d := Decide(slots, bookings, input, now);
      (d == DateInPast || d == InsufficientLeadTime) <==> ParseUtcMidnight(input.date).value - now < MsPerDay
  {
  }

  /** Every date before today's UTC midnight is also less than 24 hours ahead. */
  lemma PastDateIsShortLead(date: int, now: int)
    requires date < MidnightOf(now)
    ensures date - now < LeadTime
  {
  }

  /** Under the invariant, checking the first booking's grade is checking them all. */
  lemma GradeConflictRule(slots: map<string, Slot>, bookings: seq<Booking>, input: BookingInput, now: int)
    requires LedgerInvariant(slots, bookings)
    requires Screen(slots, input, now).Passed?
    ensures var s := Screen(slots, input, now);
      var e := Existing(bookings, s.slotId, s.date);
      (Decide(slots, bookings, input, now).GradeExclusive? <==>
         exists k :: 0 <= k < |e| && e[k].studentGrade != s.grade)
  {
    var s := Screen(slots, input, now);
    var e := Existing(bookings, s.slotId, s.date);
    assert Decide(slots, bookings, input, now) == Transact(e, s, input.studentName);
    if exists k :: 0 <= k < |e| && e[k].studentGrade != s.grade {
      var k :| 0 <= k < |e| && e[k].studentGrade != s.grade;
      ExistingOneGrade(bookings, s.slotId, s.date, k);
    }
  }

  /** Under the invariant, the bookings of one slot and date all have the grade of the first. */
  lemma ExistingOneGrade(bookings: seq<Booking>, slotId: string, date: int, k: int)
    requires OneGradePerSlotDate(bookings)
    requires 0 <= k < |Existing(bookings, slotId, date)|
    ensures var e := Existing(bookings, slotId, date);
      e[k].studentGrade == e[0].studentGrade
  {
    var e := Existing(bookings, slotId, date);
    assert e[0] in e && e[k] in e;
    var i :| 0 <= i < |bookings| && bookings[i] == e[0];
    var j :| 0 <= j < |bookings| && bookings[j] == e[k];
    assert SameSlotDate(bookings[i], bookings[j]);
  }

  /** A grade conflict is reported even when the slot is also full. */
  lemma ConflictBeforeFull(slots: map<string, Slot>, bookings: seq<Booking>, input: BookingInput, now: int)
    requires Screen(slots, input, now).Passed?
    requires var s := Screen(slots, input, now);
      var e := Existing(bookings, s.slotId, s.date);
      |e| >= s.slot.calendar.maxStudentsPerSlot && |e| > 0 && e[0].studentGrade != s.grade
    ensures Decide(slots, bookings, input, now).GradeExclusive?
  {
  }

  /** A full slot refuses every request of its own grade, whatever the name. */
  lemma FullBeforeDuplicate(slots: map<string, Slot>, bookings: seq<Booking>, input: BookingInput, now: int)
    requires Screen(slots, input, now).Passed?
    requires var s := Screen(slots, input, now);
      var e := Existing(bookings, s.slotId, s.date);
      |e| >= s.slot.calendar.maxStudentsPerSlot && (|e| == 0 || e[0].studentGrade == s.grade)
    ensures Decide(slots, bookings, input, now) == SlotFull
  {
  }

  /** A request passing every check but the last is a duplicate exactly when its name is taken. */
  lemma DuplicateRule(slots: map<string, Slot>, bookings: seq<Booking>, input: BookingInput, now: int)
    requires Screen(slots, input, now).Passed?
    requires var s := Screen(slots, input, now);
      var e := Existing(bookings, s.slotId, s.date);
      |e| < s.slot.calendar.maxStudentsPerSlot && (|e| == 0 || e[0].studentGrade == s.grade)
    ensures var s := Screen(slots, input, now);
      var d := Decide(slots, bookings, input, now);
      && (d == Duplicate <==> NameTaken(Existing(bookings, s.slotId, s.date), input.studentName))
      && (d.Created? <==> !NameTaken(Existing(bookings, s.slotId, s.date), input.studentName))
  {
  }

  /**
   * The duplicate check ignores ASCII case: a stored name that matches the
   * trimmed request name up to the case of its letters makes the request a
   * `Duplicate`, once grade and capacity have let it through.
   */
  lemma DuplicateIgnoresCase(slots: map<string, Slot>, bookings: seq<Booking>, input: BookingInput, now: int, k: nat)
    requires Screen(slots, input, now).Passed?
    requires var s := Screen(slots, input, now);
      var e := Existing(bookings, s.slotId, s.date);
      && |e| < s.slot.calendar.maxStudentsPerSlot && (|e| == 0 || e[0].studentGrade == s.grade)
      && k < |e| && SameUpToAsciiCase(e[k].studentName, Trim(input.studentName))
    ensures Decide(slots, bookings, input, now) == Duplicate
  {
    var s := Screen(slots, input, now);
    var e := Existing(bookings, s.slotId, s.date);
    LowerEqualIff(e[k].studentName, Trim(input.studentName));
    assert NameTaken(e, input.studentName);
    DuplicateRule(slots, bookings, input, now);
  }

  /** A created booking leaves room: the slot holds one more booking and stays within its maximum. */
  lemma CreatedFits(slots: map<string, Slot>, bookings: seq<Booking>, input: BookingInput, now: int)
    requires Decide(slots, bookings, input, now).Created?
    ensures var x := Decide(slots, bookings, input, now).booking;
      && |Existing(bookings + [x], x.slotId, x.date)| == |Existing(bookings, x.slotId, x.date)| + 1
      && |Existing(bookings + [x], x.slotId, x.date)| <= slots[x.slotId].calendar.maxStudentsPerSlot
  {
    var s := Screen(slots, input, now);
    var e := Existing(bookings, s.slotId, s.date);
    assert Decide(slots, bookings, input, now) == Transact(e, s, input.studentName);
    var x := Decide(slots, bookings, input, now).booking;
    assert x.slotId == s.slotId && x.date == s.date && |e| < s.slot.calendar.maxStudentsPerSlot;
    ExistingAppend(bookings, x, x.slotId, x.date);
  }

  // ---------------------------------------------------------------------------
  // GET

  datatype ListOutcome = MissingParameters | InvalidDate | Listed(bookings: seq<Booking>)

  /** A query parameter that is absent or empty. */
  predicate Blank(p: Option<string>) {
    p.None? || p.value == []
  }

  predicate InCalendarRange(slots: map<string, Slot>, b: Booking, calendarId: string, lo: int, hi: int) {
    b.slotId in slots && slots[b.slotId].calendar.id == calendarId && lo <= b.date <= hi
  }

  /** The `where` clause: the calendar's bookings dated `lo` to `hi`, both included. */
  function Matching(slots: map<string, Slot>, bookings: seq<Booking>, calendarId: string, lo: int, hi: int): (r: seq<Booking>)
    ensures forall b :: b in r <==> b in bookings && InCalendarRange(slots, b, calendarId, lo, hi)
  {
    Filter(bookings, (b: Booking) => InCalendarRange(slots, b, calendarId, lo, hi))
  }

  predicate ByDate(a: Booking, b: Booking) {
    a.date <= b.date
  }

  lemma ByDateIsTotalPreorder()
    ensures IsTotalPreorder(ByDate)
  {
  }

  /**
   * `GET /api/bookings?calendarId&startDate&endDate`: all three are needed;
   * the dates are read by the runtime's date parser `parseDate` (`None` is
   * an Invalid Date, which the store refuses); the answer is the matching
   * bookings ordered by date.
   */
  function ListBookings(
    slots: map<string, Slot>, bookings: seq<Booking>,
    calendarId: Option<string>, startDate: Option<string>, endDate: Option<string>,
    parseDate: string -> Option<int>): (r: ListOutcome)
    ensures r == MissingParameters <==> Blank(calendarId) || Blank(startDate) || Blank(endDate)
    ensures r == InvalidDate <==>
      !Blank(calendarId) && !Blank(startDate) && !Blank(endDate)
      && (parseDate(startDate.value).None? || parseDate(endDate.value).None?)
    ensures r.Listed? ==>
      var lo, hi := parseDate(startDate.value).value, parseDate(endDate.value).value;
      && SortedBy(r.bookings, ByDate)
      && multiset(r.bookings) == multiset(Matching(slots, bookings, calendarId.value, lo, hi))
      && (forall b :: b in r.bookings <==> b in bookings && InCalendarRange(slots, b, calendarId.value, lo, hi))
  {
    if Blank(calendarId) || Blank(startDate) || Blank(endDate) then MissingParameters
    else
      var lo, hi := parseDate(startDate.value), parseDate(endDate.value);
      if lo.None? || hi.None? then InvalidDate
      else
        var m := Matching(slots, bookings, calendarId.value, lo.value, hi.value);
        ByDateIsTotalPreorder();
        SortSorted(m, ByDate);
        var r := Sort(m, ByDate);
        assert forall b :: b in r <==> b in multiset(m);
        Listed(r)
  }
}
