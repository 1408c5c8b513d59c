/**
 * The request schemas, as predicates over the parsed JSON values. A JSON
 * number is a `real`; `.int()` asks that it have no fractional part.
 * String lengths are JavaScript's `length`: UTF-16 code units.
 */
module Validations {
  import opened Strings
  import opened Optional
  import opened CalendarDates
  import opened Labels

  predicate IsInt(x: real) {
    x == x.Floor as real
  }

  /** `z.number().int().min(lo).max(hi)`. */
  predicate IntIn(x: real, lo: int, hi: int) {
    IsInt(x) && lo as real <= x <= hi as real
  }

  /** `z.string().min(lo).max(hi)`, measured in UTF-16 code units. */
  predicate LengthIn(s: string, lo: int, hi: int) {
    lo <= Utf16Length(s) <= hi
  }

  /** A grade passes `min(7).max(12).int()` exactly when it is one of `GRADES`. */
  lemma GradeDomain(x: real)
    ensures IntIn(x, 7, 12) <==> exists i :: 0 <= i < |Grades| && x == Grades[i] as real
  {
    if IntIn(x, 7, 12) {
      assert x == Grades[x.Floor - 7] as real;
    }
  }

  // ---------------------------------------------------------------------------
  // Availability slots

  datatype SlotInput = SlotInput(dayOfWeek: real, periodNumber: real)

  /** `dayOfWeek` an integer 0..6 and `periodNumber` an integer 1..12. */
  predicate ValidSlotInput(s: SlotInput) {
    IntIn(s.dayOfWeek, 0, 6) && IntIn(s.periodNumber, 1, MaxPeriods)
  }

  predicate AllValidSlots(slots: seq<SlotInput>) {
    forall i :: 0 <= i < |slots| ==> ValidSlotInput(slots[i])
  }

  // ---------------------------------------------------------------------------
  // Calendar creation

  datatype CalendarInput = CalendarInput(
    name: string,
    allowedGrades: seq<real>,
    maxStudentsPerSlot: real,
    availabilitySlots: seq<SlotInput>)

  /** `calendarCreateSchema`. */
  predicate ValidCalendarInput(c: CalendarInput) {
    && LengthIn(c.name, 1, 100)
    && |c.allowedGrades| >= 1
    && (forall i :: 0 <= i < |c.allowedGrades| ==> IntIn(c.allowedGrades[i], 7, 12))
    && IntIn(c.maxStudentsPerSlot, 1, 50)
    && |c.availabilitySlots| >= 1
    && AllValidSlots(c.availabilitySlots)
  }

  // ---------------------------------------------------------------------------
  // Availability edit

  datatype Scope = Permanent | Week | Month

  /** `z.enum(["permanent", "week", "month"])`. */
  function ParseScope(s: string): (r: Option<Scope>)
    ensures r.Some? <==> s == "permanent" || s == "week" || s == "month"
    ensures r.Some? ==> s == ScopeName(r.value)
  {
    if s == "permanent" then Some(Permanent)
    else if s == "week" then Some(Week)
    else if s == "month" then Some(Month)
    else None
  }

  function ScopeName(s: Scope): string {
    match s
    case Permanent => "permanent"
    case Week => "week"
    case Month => "month"
  }

  lemma ScopeNameParses(s: Scope)
    ensures ParseScope(ScopeName(s)) == Some(s)
  {
  }

  datatype AvailabilityEditInput = AvailabilityEditInput(scope: string, slots: seq<SlotInput>)

  /** `availabilityEditSchema`: a known scope and valid slots; the slot list may be empty. */
  predicate ValidAvailabilityEdit(e: AvailabilityEditInput) {
    ParseScope(e.scope).Some? && AllValidSlots(e.slots)
  }

  /** An edit may clear every slot, but a new calendar needs at least one. */
  lemma EmptySlotListsDiffer(e: AvailabilityEditInput, c: CalendarInput)
    requires ParseScope(e.scope).Some? && e.slots == [] && c.availabilitySlots == []
    ensures ValidAvailabilityEdit(e) && !ValidCalendarInput(c)
  {
  }

  // ---------------------------------------------------------------------------
  // Booking

  datatype BookingInput = BookingInput(
    calendarCode: string,
    availabilitySlotId: string,
    date: string,
    studentName: string,
    studentGrade: real)

  /** `bookingSchema`. */
  predicate ValidBookingInput(b: BookingInput) {
    && IsDateShape(b.date)
    && LengthIn(b.studentName, 1, 100)
    && IntIn(b.studentGrade, 7, 12)
  }

  /** The name is measured before trimming: a name of blanks is accepted and trims to nothing. */
  lemma BlankNameAccepted(b: BookingInput)
    requires IsDateShape(b.date) && IntIn(b.studentGrade, 7, 12)
    requires 1 <= |b.studentName| <= 100
    requires forall i :: 0 <= i < |b.studentName| ==> b.studentName[i] == ' '
    ensures ValidBookingInput(b) && Trim(b.studentName) == []
  {
    Utf16LengthBmp(b.studentName);
    assert IsJsWhitespace(' ');
    assert TrimStart(b.studentName) == [];
  }

  /**
   * The limit is in code units: fifty-one characters beyond U+FFFF (emoji,
   * say) are too long a name, though they are fewer than a hundred.
   */
  lemma AstralNameTooLong(b: BookingInput)
    requires |b.studentName| == 51
    requires forall i :: 0 <= i < |b.studentName| ==> b.studentName[i] as int >= 0x10000
    ensures !ValidBookingInput(b)
  {
    Utf16LengthAstral(b.studentName);
  }

  /** The date's shape is all that is checked: any two-digit month and day pass. */
  lemma DateFieldsUnchecked(b: BookingInput)
    requires IsDateShape(b.date)
    requires LengthIn(b.studentName, 1, 100) && IntIn(b.studentGrade, 7, 12)
    ensures ValidBookingInput(b)
    ensures ParseNat(b.date[5..7]) <= 99 && ParseNat(b.date[8..]) <= 99
  {
    TwoDigitsBound(b.date[5..7]);
    TwoDigitsBound(b.date[8..]);
  }

  lemma TwoDigitsBound(s: string)
    requires |s| == 2 && AllDigits(s)
    ensures ParseNat(s) <= 99
  {
    assert s[..1][..0] == [];
    assert ParseNat(s[..1]) == DigitValue(s[0]) <= 9;
    assert s[..2 - 1] == s[..1];
  }

  // ---------------------------------------------------------------------------
  // Accounts

  datatype RegisterInput = RegisterInput(name: string, email: string, password: string)
  datatype LoginInput = LoginInput(email: string, password: string)

  /** `registerSchema`, with the e-mail format left to a parameter. */
  predicate ValidRegisterInput(r: RegisterInput, isEmail: string -> bool) {
    LengthIn(r.name, 1, 100) && isEmail(r.email) && Utf16Length(r.password) >= 6
  }

  /** `loginSchema`, with the e-mail format left to a parameter. */
  predicate ValidLoginInput(l: LoginInput, isEmail: string -> bool) {
    isEmail(l.email) && Utf16Length(l.password) >= 6
  }

  /** Whoever could register can log in with the same e-mail and password. */
  lemma RegisteredCanLogIn(r: RegisterInput, isEmail: string -> bool)
    requires ValidRegisterInput(r, isEmail)
    ensures ValidLoginInput(LoginInput(r.email, r.password), isEmail)
  {
  }
}
