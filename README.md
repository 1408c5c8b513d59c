# newScheduleme in Dafny

A model of the core of newScheduleme. The application books private lessons:
a teacher publishes a calendar of weekly availability slots (a weekday and a
school period), and students book a slot on a date. The model covers:

- the booking API (`POST` admission pipeline and its atomic
  read-check-insert, `GET` range listing) with the ledger invariant it keeps;
- the UTC calendar arithmetic of `src/lib/utils.ts` (days in a month,
  weekday of the 1st, week and month ranges, `formatDate`) on integer
  milliseconds, together with the `YYYY-MM-DD` parse the API applies;
- the request schemas of `src/lib/validations.ts` as predicates;
- the teacher's availability editor and the four-step calendar wizard,
  as classes whose methods update their fields as the React handlers do;
- the student's month view: navigation, the 42-cell grid built by three
  loops, slots by weekday, the 24-hour rule, and the filtering of bookings
  into day cells and slot badges.

Time is an integer number of milliseconds since 1970-01-01T00:00:00Z; a day
number is that divided by 86 400 000, rounded down, and its UTC weekday is
`(day + 4) % 7`. JavaScript's `Date.UTC` normalisation of out-of-range
months and days is written out (`MakeDay`), and so is its reading of a year
0..99 as 1900 + year (`FullYear`, ECMAScript `MakeFullYear`), which
`new Date(y, m, d)` and `Date.UTC` apply and `setUTCDate` and the ISO date
parser do not. JSON numbers in the schemas are `real`s, so `.int()` is a
real check, and string lengths are JavaScript's UTF-16 code units.

Files: `strings.dfy` (Optional, Strings), `lists.dfy`, `labels.dfy`,
`dates.dfy`, `validations.dfy`, `bookings.dfy`, `weekly_slots.dfy`,
`editor.dfy`, `wizard_steps.dfy`, `wizard.dfy`, `slot_badge.dfy`,
`day_cell.dfy`, `month_view.dfy`.

## Model

| member | source | states |
|---|---|---|
| Bookings.Screen | src/app/api/bookings/route.ts:45-109 | a request that passes the guards is schema-valid, names a known slot, and carries the parsed UTC midnight and the integer grade; a rejection is never `Created` |
| Bookings.Existing | src/app/api/bookings/route.ts:114-119 | exactly the stored bookings of that slot on that date |
| Bookings.Transact | src/app/api/bookings/route.ts:121-152 | the only booking created has this slot, this date, the trimmed name and the requested grade |
| Bookings.Decide | src/app/api/bookings/route.ts:43-155 | a `Created` answer implies a valid input, and the new booking carries the requested slot id, the parsed date, the trimmed name and the same grade |
| Bookings.Ledger.Admit | src/app/api/bookings/route.ts:43-155 | the answer is `Decide` on the old ledger; exactly one record is appended on `Created` and the ledger is unchanged otherwise; the ledger invariant is kept |
| Bookings.AppendWithinCapacity | src/app/api/bookings/route.ts:132-134 | appending a booking that fits keeps every (slot, date) at or below the calendar's maximum |
| Bookings.AppendOneGrade | src/app/api/bookings/route.ts:122-129 | appending a booking of the first booking's grade keeps one grade per (slot, date) |
| Bookings.AppendDistinctNames | src/app/api/bookings/route.ts:137-143 | appending a name no stored name matches after lower-casing keeps the names of a (slot, date) distinct |
| Bookings.AppendKeepsInvariant | src/app/api/bookings/route.ts:122-152 | capacity, single grade and distinct names all survive appending a booking that fits |
| Bookings.AdmitPreservesInvariant | src/app/api/bookings/route.ts:145-152 | whenever `POST` creates a booking, the ledger with that booking appended still satisfies the invariant |
| Bookings.SameGradeAsFirst | src/app/api/bookings/route.ts:122-124 | under the invariant, any booking of a (slot, date) has the grade of the first one listed |
| Bookings.InvalidInputFirst | src/app/api/bookings/route.ts:45-52 | the answer is `InvalidInput` iff the body fails the schema |
| Bookings.NotFoundRule | src/app/api/bookings/route.ts:59-69 | for a valid body, the answer is `NotFound` iff the slot is missing, its calendar's code differs, or the calendar is inactive |
| Bookings.WeekdayRule | src/app/api/bookings/route.ts:72-80 | once the slot resolves, the answer is `WeekdayMismatch` iff the date is invalid or its UTC weekday differs from the slot's |
| Bookings.GradeRule | src/app/api/bookings/route.ts:83-88 | once the weekday matches, the answer is `GradeNotAllowed` iff the grade is not among the calendar's grades |
| Bookings.LeadTimeRule | src/app/api/bookings/route.ts:91-109 | after the grade check, the date is refused (as past or as too close) iff it is less than 24 hours ahead, so exactly 24 hours is admitted |
| Bookings.PastDateIsShortLead | src/app/api/bookings/route.ts:91-104 | every date before today's UTC midnight is also less than 24 hours ahead |
| Bookings.GradeConflictRule | src/app/api/bookings/route.ts:122-129 | under the invariant, `GradeExclusive` is answered iff some stored booking of that (slot, date) has another grade |
| Bookings.ExistingOneGrade | src/app/api/bookings/route.ts:122-123 | under the invariant, all bookings of one (slot, date) have the first one's grade |
| Bookings.ConflictBeforeFull | src/app/api/bookings/route.ts:122-134 | a grade conflict is reported even when the slot is also full |
| Bookings.FullBeforeDuplicate | src/app/api/bookings/route.ts:132-143 | a full slot answers `SlotFull` to a request of its grade, whatever the name |
| Bookings.DuplicateRule | src/app/api/bookings/route.ts:137-152 | past grade and capacity, the answer is `Duplicate` iff the trimmed, lower-cased name is taken, and `Created` otherwise |
| Bookings.DuplicateIgnoresCase | src/app/api/bookings/route.ts:137-152 | past grade and capacity, a stored name equal to the trimmed request name up to ASCII case makes the answer `Duplicate` |
| Bookings.CreatedFits | src/app/api/bookings/route.ts:132-152 | a created booking raises its (slot, date) count by one and keeps it within the maximum |
| Bookings.Matching | src/app/api/bookings/route.ts:18-27 | exactly the bookings of the calendar dated from `startDate` to `endDate`, both included |
| Bookings.ListBookings | src/app/api/bookings/route.ts:5-41 | `MissingParameters` iff a parameter is absent or empty; `InvalidDate` iff all are present and a date does not parse; otherwise a list sorted by date that is a permutation of the matching bookings |
| CalendarDates.Weekday | src/app/api/bookings/route.ts:72 | `getUTCDay()` is in 0..6 |
| CalendarDates.WeekdayAdd | src/app/api/bookings/route.ts:72 | `k` days later the weekday is `k` further on, modulo 7 |
| CalendarDates.MidnightOf | src/app/api/bookings/route.ts:91-92 | `setUTCHours(0,0,0,0)` gives a midnight of the same UTC day, at or before the time and less than a day before it |
| CalendarDates.DayOfMidnight | src/components/features/student/MonthlyCalendarView.tsx:120 | the midnight of day `z` lies on day `z` |
| CalendarDates.MonthLength | src/lib/utils.ts:88-90 | every month has 28 to 31 days |
| CalendarDates.NextYear | src/lib/utils.ts:115-116 | consecutive years start one year's length apart |
| CalendarDates.NextYearFormula | src/lib/utils.ts:115-116 | the ECMAScript `DayFromYear` formula steps by the year's length |
| CalendarDates.DaysBeforeYearFormula | src/lib/utils.ts:115-116 | the model's year counting equals the ECMAScript `DayFromYear` formula for every year |
| CalendarDates.DaysBeforeYearMonotone | src/lib/utils.ts:115-116 | each year adds at least 365 days |
| CalendarDates.NextMonth | src/lib/utils.ts:115-116 | consecutive months start one month's length apart, within the year |
| CalendarDates.MakeDay | src/lib/utils.ts:106-108 | the ECMAScript `MakeDay` behind `Date.UTC`, the `Date` constructor and `setUTCDate` carries the whole years out of the month index (`y + m/12`, `m % 12`) and is the plain calendar day for months 0..11 |
| CalendarDates.DateUtcInMonth | src/lib/utils.ts:115-116 | for months 0..11, `Date.UTC(y, m, d)` is day `d` of month `m` of the year `FullYear(y)` (1900 + y for y in 0..99) |
| CalendarDates.YearOf | src/lib/utils.ts:115 | `getUTCFullYear()`: the day lies within the year found |
| CalendarDates.MonthScan | src/lib/utils.ts:115 | `getUTCMonth()`: the day of the year lies within the month found |
| CalendarDates.CivilFromDay | src/lib/utils.ts:115 | the UTC date of a day is a valid date that names that day again |
| CalendarDates.YearUnique | src/lib/utils.ts:115 | at most one year contains a given day |
| CalendarDates.MonthUnique | src/lib/utils.ts:115 | at most one month contains a given day of the year |
| CalendarDates.CivilInYear | src/lib/utils.ts:115-116 | a valid date lies inside its year and, within it, inside its month |
| CalendarDates.DayOfCivilInjective | src/lib/utils.ts:115-116 | distinct valid dates are distinct days |
| CalendarDates.CivilRoundTrip | src/lib/utils.ts:115-116 | reading back the day of a valid date gives that date |
| CalendarDates.CivilFromDayInjective | src/lib/utils.ts:115 | two days with the same UTC date are the same day |
| CalendarDates.NextMonthDayZero | src/lib/utils.ts:116 | day 0 of the following month is the last day of the month, after normalisation |
| CalendarDates.MonthCarry | src/lib/utils.ts:116 | how `m + 1` normalises compared with `m` |
| CalendarDates.GetDaysInMonth | src/lib/utils.ts:88-90 | the length of the month `new Date(y, m + 1, 0)` lands in: the year read as 1900 + y for 0..99, a month outside 0..11 carried into it |
| CalendarDates.LastDayIsLength | src/lib/utils.ts:88-90 | `new Date(y, m+1, 0)` is the last day of the normalised month, in the year the constructor reads (1900 + y for 0..99): right year, month and day |
| CalendarDates.FebruaryLength | src/lib/utils.ts:88-90 | February has 29 days iff the year the constructor reads is a Gregorian leap year, else 28 |
| CalendarDates.TwoDigitYear | src/lib/utils.ts:88-90 | year 0 is a leap year, yet `getDaysInMonth(0, 1)` is 28, since the constructor reads February 1900 |
| CalendarDates.FixedMonthLengths | src/lib/utils.ts:88-90 | 31 days for months 0,2,4,6,7,9,11 and 30 for 3,5,8,10 (both directions) |
| CalendarDates.GetFirstDayOfMonth | src/lib/utils.ts:92-94 | in 0..6, and for months 0..11 the weekday of the 1st of that month in the year the constructor reads (1900 + y for 0..99) |
| CalendarDates.LastDayOfMonth | src/lib/utils.ts:88-90 | day 0 of the next month is day `getDaysInMonth` of this one, for every year and month index |
| CalendarDates.FirstDayOfNextMonth | src/lib/utils.ts:88-94 | the next month's 1st is `getDaysInMonth` weekdays after this month's 1st |
| CalendarDates.DateUtcShift | src/lib/utils.ts:88-94 | `Date.UTC` moves by whole days with its day argument, in any month |
| CalendarDates.UtcDate.UtcDayOfWeek | src/lib/utils.ts:104 | `getUTCDay()` of the date's time, in 0..6 |
| CalendarDates.UtcDate.UtcDate | src/lib/utils.ts:106 | `getUTCDate()`, in 1..31 |
| CalendarDates.UtcDate.SetUtcMidnight | src/lib/utils.ts:103 | the time becomes the start of its UTC day |
| CalendarDates.UtcDate.SetUtcDate | src/lib/utils.ts:106-108 | the day of the month is set, carrying out of the month, keeping year, month and time of day |
| CalendarDates.ShiftDate | src/lib/utils.ts:106-108 | setting the day of the month `k` further moves the time by exactly `k` days |
| CalendarDates.WeekStartShape | src/lib/utils.ts:101-110 | the week starts at a Sunday midnight, and the reference date's midnight is one of its seven days |
| CalendarDates.WeekRangeStable | src/lib/utils.ts:101-110 | any time inside the week yields the same week |
| CalendarDates.GetWeekRange | src/lib/utils.ts:101-110 | start is the Sunday midnight of the reference date's week (or now's) and end is six days later |
| CalendarDates.GetMonthRange | src/lib/utils.ts:113-118 | start is the 1st and end the last day of the reference date's UTC month, both midnights, the span `getDaysInMonth` days; the date lies between them, except for years 0..99, where `Date.UTC` gives that month 1900 years on, after the date |
| CalendarDates.MonthRangeAround | src/lib/utils.ts:115-116 | a date lies between the two `Date.UTC` days of its month iff its year is outside 0..99; otherwise it comes before both |
| CalendarDates.MonthBounds | src/lib/utils.ts:115-116 | in the calendar (without the two-digit year reading), a date's month runs from its 1st to day 0 of the next month, `MonthLength` days, and contains the date |
| CalendarDates.LastOfMonth | src/lib/utils.ts:116 | day 0 of the next month is the month's last date, `MonthLength - 1` days after the 1st |
| CalendarDates.DateTextHasNoT | src/lib/utils.ts:97 | a `YYYY-MM-DD` text holds no `T` |
| CalendarDates.FormatDate | src/lib/utils.ts:96-98 | the text before the first `T` of `toISOString()` is the `YYYY-MM-DD` of the UTC date |
| CalendarDates.FormatDateOfDay | src/lib/utils.ts:96-98 | two times format alike iff they fall on the same UTC day |
| CalendarDates.YearTextInjective | src/lib/utils.ts:97 | distinct years are written differently |
| CalendarDates.DateTextParts | src/lib/utils.ts:97 | where year, month and day sit in the text |
| CalendarDates.YearTextShape | src/lib/utils.ts:97 | years 0..9999 are four digits; other years start with a sign |
| CalendarDates.FormatDateInjective | src/lib/utils.ts:96-98 | distinct dates are written differently |
| CalendarDates.DecimalsEqual | src/lib/utils.ts:97 | equal zero-padded numbers are equal numbers |
| CalendarDates.ParseUtcMidnight | src/app/api/bookings/route.ts:56 | `new Date(date + "T00:00:00Z")` is a date iff the month is 1..12 and the day 1..31, and then it is a UTC midnight |
| CalendarDates.FormatDateShape | src/lib/utils.ts:96-98 | `formatDate` has the schema's `YYYY-MM-DD` shape iff the year is 0..9999 |
| CalendarDates.FormatThenParse | src/lib/utils.ts:96-98 | for years 0..9999, parsing what `formatDate` wrote gives back the midnight of the same day |
| CalendarDates.ParseFields | src/app/api/bookings/route.ts:56 | a text whose fields name a valid date parses to that date's midnight |
| CalendarDates.ParseOfRealDate | src/app/api/bookings/route.ts:56 | a text naming a real date parses to a time whose UTC date is that date |
| CalendarDates.ParseRollsOver | src/app/api/bookings/route.ts:56 | a day number past the month's end (up to 31) parses into the following month |
| Strings.LeadingBlanks | src/app/api/bookings/route.ts:139 | the count of leading whitespace: all whitespace before it, none at it |
| Strings.KeptPrefix | src/app/api/bookings/route.ts:139 | the length without trailing whitespace: all whitespace after it, none just before |
| Strings.TrimStart | src/app/api/bookings/route.ts:139 | a suffix whose dropped prefix is whitespace and which does not start with whitespace |
| Strings.TrimEnd | src/app/api/bookings/route.ts:139 | a prefix whose dropped suffix is whitespace and which does not end with whitespace |
| Strings.TrimIsInfix | src/app/api/bookings/route.ts:149 | `trim()` returns a trimmed infix of its input |
| Strings.TrimOfTrimmed | src/app/api/bookings/route.ts:149 | trimming a trimmed string changes nothing |
| Strings.TrimIdempotent | src/app/api/bookings/route.ts:139 | `trim()` is idempotent, so the stored name trims to itself |
| Strings.LowerChar | src/app/api/bookings/route.ts:139 | ASCII capitals move 32 code points up, to their lower-case letter; every other character stays |
| Strings.Lower | src/app/api/bookings/route.ts:139 | `toLowerCase()` maps each character in place, keeping the length |
| Strings.LowerEqualIff | src/app/api/bookings/route.ts:139-147 | two names lower to the same text iff they differ only in the case of ASCII letters (both directions) |
| Strings.LowerCharFolds | src/app/api/bookings/route.ts:139 | a capital and its lower-case letter lower alike |
| Strings.Utf16Length | src/lib/validations.ts:9 | `length` counts UTF-16 code units: at least one and at most two per character |
| Strings.Utf16LengthBmp | src/lib/validations.ts:9 | for characters below U+10000 the code-unit length is the character count |
| Strings.Utf16LengthAstral | src/lib/validations.ts:9 | characters beyond U+FFFF count twice |
| Strings.NatToString | src/lib/utils.ts:85 | `${n}` is a non-empty run of digits without a leading zero |
| Strings.ParseNatToString | src/lib/utils.ts:85 | reading back `${n}` gives `n` |
| Strings.IntToStringInjective | src/components/features/dashboard/EditAvailabilityButton.tsx:73 | distinct integers print differently |
| Strings.IntToStringShape | src/components/features/dashboard/EditAvailabilityButton.tsx:73 | `${i}` is digits with at most a leading minus sign |
| Strings.NatToStringLength | src/components/features/student/MonthlyCalendarView.tsx:56-57 | a number below 10^k has at most k digits |
| Strings.NatToStringLengthBelow | src/components/features/student/MonthlyCalendarView.tsx:56-57 | a number of at least 10^(k-1) has at least k digits |
| Strings.PadStart | src/components/features/student/MonthlyCalendarView.tsx:56-57 | `padStart` leaves a long enough text alone and otherwise prefixes the filler up to the width |
| Strings.ParseDecimal | src/lib/utils.ts:97 | a zero-padded number reads back as the number |
| Strings.DecimalLength | src/lib/utils.ts:97 | a number that fits the width is written with exactly that many digits |
| Strings.BeforeT | src/components/features/student/DayCell.tsx:38-40 | `split("T")[0]` is the longest `T`-free prefix |
| Strings.BeforeTOfConcat | src/components/features/student/DayCell.tsx:38-40 | the part before the first `T` of `a + "T" + b` is `a` when `a` has no `T` |
| Lists.Filter | src/components/features/student/DayCell.tsx:39-41 | `filter` keeps, in order, exactly the elements that satisfy the test |
| Lists.FilterAppend | src/components/features/student/MonthlyCalendarView.tsx:146-149 | filtering distributes over concatenation |
| Lists.Remove | src/components/features/calendar-wizard/Step1Grades.tsx:20 | `filter(y => y !== x)` drops `x` and keeps every other element |
| Lists.Sort | src/components/features/dashboard/EditAvailabilityButton.tsx:35-37 | sorting permutes its input |
| Lists.SortSorted | src/components/features/dashboard/EditAvailabilityButton.tsx:35-37 | under a total preorder the result is sorted |
| Lists.SortedUnique | src/components/features/dashboard/EditAvailabilityButton.tsx:35-37 | under a total order a sorted list is determined by its elements |
| Lists.IntLeqIsTotalOrder | src/components/features/dashboard/EditAvailabilityButton.tsx:36 | the comparator `(a, b) => a - b` is a total order |
| Lists.Toggle | src/components/features/dashboard/EditAvailabilityButton.tsx:63-67 | exactly `x` changes membership; removal is `filter`, insertion keeps the list sorted and adds `x` once |
| Lists.ToggleKeepsShape | src/components/features/dashboard/EditAvailabilityButton.tsx:63-67 | a toggle keeps a list sorted and free of duplicates |
| Lists.ToggleTwice | src/components/features/dashboard/EditAvailabilityButton.tsx:63-69 | toggling the same value twice restores a sorted duplicate-free list |
| Labels.FormatGrade | src/lib/utils.ts:79-81 | the table label for grades 1..12, otherwise "שכבה " and the number |
| Labels.FormatGradeShort | src/lib/utils.ts:84-86 | the table letters for grades 1..12, otherwise the number itself |
| Labels.FormatHour | src/lib/utils.ts:74-76 | "שעה " followed by the period number |
| Labels.GradeLettersShape | src/lib/utils.ts:58-71 | every short label starts with a Hebrew letter and no two are equal |
| Labels.FormatGradeShortInjective | src/lib/utils.ts:84-86 | different grades get different short labels |
| Labels.FormatGradeInjective | src/lib/utils.ts:79-81 | different grades get different labels |
| Labels.FormatHourInjective | src/lib/utils.ts:74-76 | different periods get different labels |
| Validations.GradeDomain | src/lib/validations.ts:45 | a grade passes `int().min(7).max(12)` iff it is one of `GRADES` |
| Validations.ParseScope | src/lib/validations.ts:31 | a scope is accepted iff it is "permanent", "week" or "month" |
| Validations.ScopeNameParses | src/lib/validations.ts:31 | every scope's name is accepted as that scope |
| Validations.EmptySlotListsDiffer | src/lib/validations.ts:20-37 | an edit may send no slots while a new calendar must send one |
| Validations.BlankNameAccepted | src/lib/validations.ts:44 | a name of 1 to 100 blanks passes the schema and trims to nothing |
| Validations.AstralNameTooLong | src/lib/validations.ts:44 | the name limit is in code units: 51 characters beyond U+FFFF are too long |
| Validations.DateFieldsUnchecked | src/lib/validations.ts:43 | any two-digit month and day pass the date regex |
| Validations.RegisteredCanLogIn | src/lib/validations.ts:3-12 | whoever could register passes the login schema with the same credentials |
| WeeklySlots.Row | src/components/features/dashboard/EditAvailabilityButton.tsx:104-106 | one slot per period of the day, in order |
| WeeklySlots.FlattenMembership | src/components/features/dashboard/EditAvailabilityButton.tsx:102-107 | a slot is sent iff its day is among the days and its period is listed under that day |
| WeeklySlots.FlattenLength | src/components/features/calendar-wizard/CalendarWizard.tsx:69-75 | the number of slots sent is the sum of the days' period counts |
| WeeklySlots.SlotInputs | src/components/features/dashboard/EditAvailabilityButton.tsx:105 | each slot becomes `{ dayOfWeek, periodNumber }`, in order |
| WeeklySlots.CollectSlots | src/components/features/dashboard/EditAvailabilityButton.tsx:102-107 | the nested push loops build exactly the flattening of the days' periods |
| WeeklySlots.OfferedHoursShape | src/components/features/calendar-wizard/Step3Hours.tsx:29 | the offered periods are exactly 1..12, ascending and distinct |
| WeeklySlots.ToggleHourFlips | src/components/features/calendar-wizard/Step3Hours.tsx:20-26 | exactly that period changes membership in that day's list; every other day keeps its entry |
| WeeklySlots.ToggleHourKeepsShape | src/components/features/calendar-wizard/Step3Hours.tsx:22-24 | the day's list stays ascending, and stays free of repeats when it was |
| WeeklySlots.ToggleHourTwice | src/components/features/calendar-wizard/Step3Hours.tsx:20-26 | toggling a period twice restores the day's list |
| WeeklySlots.FlattenIsValid | src/lib/validations.ts:20-27 | slots built from weekdays 0..6 and periods 1..12 pass the slot schema |
| AvailabilityEditing.HoursOn | src/components/features/dashboard/EditAvailabilityButton.tsx:38-42 | a period is listed for a day iff a current slot has that day and period |
| AvailabilityEditing.KeyTextInjective | src/components/features/dashboard/EditAvailabilityButton.tsx:73 | different slots get different `${day}-${hour}` keys |
| AvailabilityEditing.KeyTextsEqual | src/components/features/dashboard/EditAvailabilityButton.tsx:71-88 | two slot sets have equal key sets iff they are equal |
| AvailabilityEditing.AvailabilityEditor.OpenEditor | src/components/features/dashboard/EditAvailabilityButton.tsx:34-50 | the days are the distinct slot days, ascending; each day holds its periods, ascending; nothing has changed yet; the editor is open with no error |
| AvailabilityEditing.AvailabilityEditor.ToggleDay | src/components/features/dashboard/EditAvailabilityButton.tsx:52-61 | a selected day is removed with its periods; an unselected one is inserted in order, with no periods added |
| AvailabilityEditing.AvailabilityEditor.ToggleHour | src/components/features/dashboard/EditAvailabilityButton.tsx:63-69 | the day's periods are toggled as `ToggleHourIn`; the days and the dialog state stay |
| AvailabilityEditing.AvailabilityEditor.EditedKeys | src/components/features/dashboard/EditAvailabilityButton.tsx:75-80 | the keys pushed are those of the edited slots, in order |
| AvailabilityEditing.AvailabilityEditor.HasChanges | src/components/features/dashboard/EditAvailabilityButton.tsx:71-88 | true iff the edited slots differ, as a set, from the current slots |
| AvailabilityEditing.AvailabilityEditor.HandleSaveClick | src/components/features/dashboard/EditAvailabilityButton.tsx:90-96 | with no change the editor closes and no dialog opens; otherwise the scope dialog opens |
| AvailabilityEditing.AvailabilityEditor.HandleScopeSelect | src/components/features/dashboard/EditAvailabilityButton.tsx:98-132 | the request holds the scope and the selected days' periods, day by day; success closes the editor; a refusal or a failure sets its message; the dialog closes and loading ends |
| AvailabilityEditing.GroupSlots | src/components/features/dashboard/EditAvailabilityButton.tsx:35-45 | the days are the distinct slot days, ascending and distinct; each day maps to its sorted periods |
| AvailabilityEditing.GroupedFacts | src/components/features/dashboard/EditAvailabilityButton.tsx:34-50 | the grouped state keeps periods ascending and flattens back to exactly the current slots |
| AvailabilityEditing.GroupedMember | src/components/features/dashboard/EditAvailabilityButton.tsx:34-50 | a slot is in the grouped state iff it is a current slot |
| AvailabilityEditing.DistinctDays | src/components/features/dashboard/EditAvailabilityButton.tsx:35 | `[...new Set(days)]`: each slot day once |
| AvailabilityEditing.GroupByDay | src/components/features/dashboard/EditAvailabilityButton.tsx:38-42 | the loop maps each day that occurs to its periods in list order |
| AvailabilityEditing.SortEachDay | src/components/features/dashboard/EditAvailabilityButton.tsx:43-45 | every day's periods are sorted and the keys stay |
| AvailabilityEditing.KeySetsDiffer | src/components/features/dashboard/EditAvailabilityButton.tsx:83-87 | the size test and the membership loop answer true iff the sets differ |
| AvailabilityEditing.KeyTextList | src/components/features/dashboard/EditAvailabilityButton.tsx:75-80 | one key per slot, in order |
| AvailabilityEditing.KeyTextListMembers | src/components/features/dashboard/EditAvailabilityButton.tsx:81 | the set of the pushed keys is the key set of the slots |
| AvailabilityEditing.UnselectedDaysNotSent | src/components/features/dashboard/EditAvailabilityButton.tsx:102-107 | periods stored under an unselected day are never sent |
| AvailabilityEditing.RequestIsValidEdit | src/components/features/dashboard/EditAvailabilityButton.tsx:102-113 | the body sent passes the edit schema when days are 0..6 and periods 1..12 |
| WizardSteps.StringLeqTotal | src/components/features/calendar-wizard/Step1Grades.tsx:22 | the default string comparison is total |
| WizardSteps.StringLeqTransitive | src/components/features/calendar-wizard/Step1Grades.tsx:22 | the default string comparison is transitive |
| WizardSteps.StringLeqAntisymmetric | src/components/features/calendar-wizard/Step1Grades.tsx:22 | the default string comparison is antisymmetric |
| WizardSteps.DefaultLeqIsTotalOrder | src/components/features/calendar-wizard/Step1Grades.tsx:22 | comparing numbers by their decimal text is a total order on integers |
| WizardSteps.ToggleChoice | src/components/features/calendar-wizard/Step1Grades.tsx:18-24 | exactly that value changes membership; removal is `filter`; an insertion is sorted in default order and a permutation of the list plus the value |
| WizardSteps.ChoiceKeepsShape | src/components/features/calendar-wizard/Step1Grades.tsx:18-24 | a toggle keeps the list in default order and free of duplicates |
| WizardSteps.ChoiceToggleTwice | src/components/features/calendar-wizard/Step1Grades.tsx:18-24 | toggling the same grade twice restores the list |
| WizardSteps.GradesSortAsText | src/components/features/calendar-wizard/Step1Grades.tsx:22 | choosing 10 after 7 gives `[10, 7]`, which is not in numeric order |
| WizardSteps.TenBeforeSeven | src/components/features/calendar-wizard/Step1Grades.tsx:22 | "10" sorts before "7" |
| WizardSteps.DigitOrderIsNumeric | src/components/features/calendar-wizard/Step2Days.tsx:14 | on single digits the text order is the numeric order (both directions) |
| WizardSteps.DigitsSortNumerically | src/components/features/calendar-wizard/Step2Days.tsx:14 | days 0..6 in default order are in ascending numeric order |
| WizardSteps.MaxFallback | src/components/features/calendar-wizard/Step3Hours.tsx:66 | `Number(v) \|\| 1` is never 0; NaN and 0 give 1; every other number comes through unchanged |
| WizardSteps.MaxFallbackIdempotent | src/components/features/calendar-wizard/Step3Hours.tsx:66 | applying the fallback to its own result changes nothing |
| CalendarCreation.AsInput | src/components/features/calendar-wizard/CalendarWizard.tsx:81-86 | the JSON body as the schema reads it: same name, grades, maximum and slots |
| CalendarCreation.Restrict | src/components/features/calendar-wizard/CalendarWizard.tsx:133-139 | keeps exactly the entries of the selected days, unchanged |
| CalendarCreation.PruneHours | src/components/features/calendar-wizard/CalendarWizard.tsx:133-139 | the delete loop leaves exactly `Restrict` of the map |
| CalendarCreation.SubmittedSlots | src/components/features/calendar-wizard/CalendarWizard.tsx:69-75 | a slot is submitted iff its period is listed under its day in `hoursByDay` |
| CalendarCreation.CalendarWizard.constructor | src/components/features/calendar-wizard/CalendarWizard.tsx:24-34 | step 1, empty name, grades, days and hours, maximum 1 |
| CalendarCreation.CalendarWizard.Next | src/components/features/calendar-wizard/CalendarWizard.tsx:53-57 | the step goes up by one only below 4 and when the step is complete; the data stay |
| CalendarCreation.CalendarWizard.Back | src/components/features/calendar-wizard/CalendarWizard.tsx:59-63 | the step goes down by one only above 1; the data stay |
| CalendarCreation.CalendarWizard.NameChanged | src/components/features/calendar-wizard/CalendarWizard.tsx:122 | the name is replaced and nothing else changes |
| CalendarCreation.CalendarWizard.GradeToggled | src/components/features/calendar-wizard/CalendarWizard.tsx:123-125 | the grades become `ToggleChoice` of the old grades, in shape |
| CalendarCreation.CalendarWizard.DayToggled | src/components/features/calendar-wizard/CalendarWizard.tsx:132-141 | the days are toggled and the periods of unselected days dropped, so every key of `hoursByDay` is a selected day |
| CalendarCreation.CalendarWizard.HourToggled | src/components/features/calendar-wizard/CalendarWizard.tsx:150 | the periods become `ToggleHourIn` of the old ones; everything else stays |
| CalendarCreation.CalendarWizard.MaxChanged | src/components/features/calendar-wizard/CalendarWizard.tsx:151-153 | the maximum becomes the fallback of what was typed |
| CalendarCreation.CalendarWizard.Submit | src/components/features/calendar-wizard/CalendarWizard.tsx:65-102 | submitting is enabled in every reachable state of step 4; the request is the trimmed name, grades, maximum and flattened slots; the error follows the response |
| CalendarCreation.SubmissionAccepted | src/components/features/calendar-wizard/CalendarWizard.tsx:65-86 | a completed wizard sends a body that passes the creation schema, given the two bounds it does not check |
| CalendarCreation.SomeSlotSent | src/components/features/calendar-wizard/CalendarWizard.tsx:69-75 | completed day and hour steps send at least one slot |
| CalendarCreation.ToggleHourShape | src/components/features/calendar-wizard/Step3Hours.tsx:20-24 | toggling an offered period keeps a day's list ascending, distinct and within 1..12 |
| CalendarCreation.ToggleHourKeepsChoices | src/components/features/calendar-wizard/Step3Hours.tsx:20-26 | toggling a period of a selected day keeps periods only for selected days, each list in shape |
| CalendarCreation.DayToggleKeepsChoices | src/components/features/calendar-wizard/CalendarWizard.tsx:132-141 | a day toggle keeps the days in shape, and pruning keeps periods only for selected days |
| CalendarCreation.OfferedHourRange | src/components/features/calendar-wizard/Step3Hours.tsx:29 | an offered period is in 1..12 |
| SlotBadges.ShadeOf | src/components/features/student/SlotBadge.tsx:27-32 | red iff full; green iff not full and empty; amber otherwise |
| SlotBadges.ShadeRanges | src/components/features/student/SlotBadge.tsx:22-32 | with room for one student: green iff no bookings, amber iff some but below the maximum, red iff at the maximum or above |
| SlotBadges.NoRoomIsFull | src/components/features/student/SlotBadge.tsx:22-32 | a maximum of 0 or less shows red even with no bookings |
| SlotBadges.Clickable | src/components/features/student/SlotBadge.tsx:33-34 | clickable iff bookable and below the maximum, and then never red |
| SlotBadges.Lines | src/components/features/student/SlotBadge.tsx:42-48 | one line per booking, in order, each starting with the student's name |
| SlotBadges.RenderBadge | src/components/features/student/SlotBadge.tsx:22-55 | the shade of the count, the period label and `(count/max)` header, the lines of the bookings, and a click iff bookable and not full |
| SlotBadges.CounterInjective | src/components/features/student/SlotBadge.tsx:39 | different counts or maxima show different `(count/max)` counters |
| SlotBadges.SplitAtSeparator | src/components/features/student/SlotBadge.tsx:39 | splitting at a separator absent from the left parts is unique |
| DayCells.DayBookings | src/components/features/student/DayCell.tsx:38-41 | exactly the listed bookings whose date prefix is the cell's `YYYY-MM-DD`, in order |
| DayCells.StripAll | src/components/features/student/DayCell.tsx:63-67 | each booking becomes `{ id, studentName, studentGrade }`, in order |
| DayCells.SlotBookings | src/components/features/student/DayCell.tsx:61-67 | at most as many as the cell's bookings |
| DayCells.FilterTwice | src/components/features/student/DayCell.tsx:39-62 | filtering by day and then by slot is one filter by both |
| DayCells.SlotBookingsAreShownUnder | src/components/features/student/DayCell.tsx:39-67 | a badge lists exactly the bookings of that cell's day and that slot, in listing order |
| DayCells.Badges | src/components/features/student/DayCell.tsx:60-79 | one badge per slot in slot order, each rendered with that slot's bookings; a click is offered iff bookable and below the maximum, and reports the slot and the cell's date |
| DayCells.Views | src/app/api/bookings/route.ts:40 | each stored booking reaches the client with its date as `toISOString()` |
| DayCells.OnCellIffSameDay | src/components/features/student/DayCell.tsx:38-41 | a stored booking is shown in a cell iff it falls on the cell's UTC day |
| DayCells.ShownCount | src/components/features/student/DayCell.tsx:61-67 | with UTC midnights, a badge counts exactly the bookings the server counts for that slot and date |
| DayCells.FullAsServer | src/components/features/student/SlotBadge.tsx:22 | the badge is red iff the server's count for that slot and date is at the maximum |
| MonthView.MonthAfter | src/components/features/student/MonthlyCalendarView.tsx:85-92 | the month index stays 0..11 and the month count goes up by exactly one (December to January of the next year) |
| MonthView.MonthBefore | src/components/features/student/MonthlyCalendarView.tsx:76-83 | the month index stays 0..11 and the month count goes down by exactly one (January to December of the year before) |
| MonthView.MonthStepsUndo | src/components/features/student/MonthlyCalendarView.tsx:76-92 | going back after going forward, and forward after back, returns to the same month |
| MonthView.NeighboursAsUtc | src/components/features/student/MonthlyCalendarView.tsx:111-136 | where the years agree, the neighbour months the component picks are the ones `Date.UTC` reaches with the month index one off |
| MonthView.YearsAgreeExcept | src/components/features/student/MonthlyCalendarView.tsx:111-136 | the neighbour month read through `FullYear` is the month next to the one shown, except January of years 0 and 100 and December of years -1 and 99 (both directions) |
| MonthView.FirstWeekday | src/components/features/student/MonthlyCalendarView.tsx:107 | the number of leading cells is in 0..6 |
| MonthView.Grid | src/components/features/student/MonthlyCalendarView.tsx:115-142 | the leading, current and trailing runs together, always 42 cells |
| MonthView.GridConsecutive | src/components/features/student/MonthlyCalendarView.tsx:115-142 | where the years agree, the cells are 42 consecutive UTC midnights |
| MonthView.GridWeekdays | src/components/features/student/MonthlyCalendarView.tsx:198 | where the years agree, cell `i` falls on weekday `i % 7`, so the first cell is a Sunday |
| MonthView.GridIsWeeks | src/components/features/student/MonthlyCalendarView.tsx:115-142 | where the years agree, the grid is six weeks from the Sunday on or before the 1st, with exactly the month's days marked current |
| MonthView.RunDays | src/components/features/student/MonthlyCalendarView.tsx:119-141 | a run of cells is consecutive midnights from day `from` of its month |
| MonthView.RunDates | src/components/features/student/MonthlyCalendarView.tsx:119-141 | a run inside one month holds its dates `from`, `from + 1`, ... in order |
| MonthView.GridLeading | src/components/features/student/MonthlyCalendarView.tsx:110-123 | the first `firstDay` cells are not current and are the last days of the month before, in order, ending on its last day, in the year `Date.UTC` reads for it |
| MonthView.GridCurrent | src/components/features/student/MonthlyCalendarView.tsx:126-131 | exactly the `daysInMonth` cells from `firstDay` on are current, and they are days 1, 2, ... of the month in order, in the year `Date.UTC` reads |
| MonthView.GridCurrentCells | src/components/features/student/MonthlyCalendarView.tsx:126-131 | a cell is current iff its index is in `firstDay .. firstDay + daysInMonth - 1` |
| MonthView.CurrentWeekdays | src/components/features/student/MonthlyCalendarView.tsx:198 | every current cell falls on the weekday of its column `i % 7`, for every year |
| MonthView.GridTrailing | src/components/features/student/MonthlyCalendarView.tsx:133-142 | at least five trailing cells, not current, the days of the month after from its 1st, in the year `Date.UTC` reads for it |
| MonthView.TrailingDates | src/components/features/student/MonthlyCalendarView.tsx:133-142 | the third loop's run has at least five cells, none current, on days 1, 2, ... of the month after |
| MonthView.BookableAsServer | src/components/features/student/MonthlyCalendarView.tsx:156-160 | bookable iff the date is at least 24 hours ahead, exactly the server's lead-time test |
| MonthView.SlotsOfDay | src/components/features/student/MonthlyCalendarView.tsx:145-149 | exactly the calendar's slots on that weekday |
| MonthView.SlotsOfDaySnoc | src/components/features/student/MonthlyCalendarView.tsx:146-149 | one more slot joins its own weekday's group only |
| MonthView.MonthlyCalendar.constructor | src/components/features/student/MonthlyCalendarView.tsx:41-51 | the month of `today`, no bookings, no form open |
| MonthView.MonthlyCalendar.PrevMonth | src/components/features/student/MonthlyCalendarView.tsx:76-83 | the month shown becomes `MonthBefore` of the old one; bookings and form stay |
| MonthView.MonthlyCalendar.NextMonth | src/components/features/student/MonthlyCalendarView.tsx:85-92 | the month shown becomes `MonthAfter` of the old one; bookings and form stay |
| MonthView.MonthlyCalendar.BookingsFetched | src/components/features/student/MonthlyCalendarView.tsx:63-66 | a successful response replaces the bookings; a failed one keeps them |
| MonthView.MonthlyCalendar.HandleSlotClick | src/components/features/student/MonthlyCalendarView.tsx:94-103 | the form opens on (slot, date) iff the date is bookable; otherwise nothing changes |
| MonthView.MonthlyCalendar.CalendarDays | src/components/features/student/MonthlyCalendarView.tsx:105-142 | the three loops build exactly the grid of the month shown |
| MonthView.MonthlyCalendar.SlotsByDay | src/components/features/student/MonthlyCalendarView.tsx:144-149 | `slotsByDay[d] \|\| []` is the calendar's slots on weekday `d`, in order; no group is empty |
| MonthView.MonthlyCalendar.Render | src/components/features/student/MonthlyCalendarView.tsx:197-214 | 42 cells on the grid's dates; current cells get their weekday's slots and others none; bookable iff current and 24 hours ahead; the badges of the cell |
| MonthView.GridCounts | src/components/features/student/MonthlyCalendarView.tsx:106-113 | the month's length and first weekday in the year the constructor reads, the month before, and its length |
| MonthView.PreviousMonthDays | src/components/features/student/MonthlyCalendarView.tsx:117-123 | the first loop, counting down, builds exactly the leading run of the month before |
| MonthView.PushMonthDays | src/components/features/student/MonthlyCalendarView.tsx:125-131 | the second loop appends exactly the `daysInMonth` current cells |
| MonthView.PushNextMonthDays | src/components/features/student/MonthlyCalendarView.tsx:133-142 | the third loop appends the trailing run, completing the grid |
| MonthView.CellSlots | src/components/features/student/MonthlyCalendarView.tsx:197-207 | a current cell in column `i % 7` lists exactly the slots with that `dayOfWeek`, for every year |
| MonthView.FetchRangeIsMonth | src/components/features/student/MonthlyCalendarView.tsx:55-57 | for four-digit years the query names the month's first and last days as `formatDate` writes them, and the API's parser reads them back as those midnights |
| MonthView.FetchRangeTexts | src/components/features/student/MonthlyCalendarView.tsx:56-57 | the two query texts are the `YYYY-MM-DD` of the 1st and of the last day |
| MonthView.QueryDate | src/components/features/student/MonthlyCalendarView.tsx:57 | `${y}-${MM}-${DD}` is the `YYYY-MM-DD` text of that date |
| MonthView.YearDigits | src/components/features/student/MonthlyCalendarView.tsx:56 | `${y}` of a year 1000..9999 is its four-digit ISO year |
| MonthView.DayTextOf | src/components/features/student/MonthlyCalendarView.tsx:55-57 | day `d` of the month at UTC midnight is written as its date and parses back to the same time |

## Left out

- The database (Prisma): the ledger is an in-memory sequence, and the transaction is one atomic method. Isolation between concurrent transactions is not modelled.
- Bookings.Ledger.Admit: the stored booking's id and creation time, and the HTTP status codes and message texts, are not modelled; the outcome tag stands for the response.
- Bookings.ListBookings: the date parser of `new Date(startDate)` is a parameter (`None` for an Invalid Date), because the runtime's fallback parser for non-ISO text is not modelled. The store's order among bookings of equal date is not fixed; the contract states sorted and a permutation only. The `include` of the slot in each row is not modelled.
- Authentication, sessions, redirects, `router.push`/`refresh`, `fetch` and `res.json()` are I/O. Their results enter as parameters (`SaveResponse`, `CreateResponse`, the `Option` of `BookingsFetched`). A `res.json()` that throws is not modelled.
- `generateCalendarCode` (nanoid) is randomness and is not modelled; `z.email()` is a parameter `isEmail`.
- Floating point: the hours of the 24-hour rules are computed in exact arithmetic, on integer milliseconds in the API and as exact reals on the client; the results agree with the source because the divisor and 24 are exact.
- CalendarDates.GetDaysInMonth: `new Date(year, month + 1, 0)` uses local time; the model reads it in UTC.
- MonthView.GridConsecutive, MonthView.GridWeekdays, MonthView.GridIsWeeks and MonthView.NeighboursAsUtc are stated where the years agree: for January of years 0 and 100 and December of years -1 and 99 the component's grid jumps between centuries, as `YearsAgreeExcept` shows.
- CalendarDates.GetFirstDayOfMonth: `getDay()` of a local date is modelled as the UTC weekday.
- MonthView.MonthlyCalendar.constructor: `today.getFullYear()`/`getMonth()` are local time; the model takes the UTC month of `today`. The `loading` flag of the view is not modelled.
- `isToday` and the day number label of a cell (`getDate()`, local time) are presentation only and are not modelled.
- `ToIsoString`/`FormatDate`: the time clip of ECMAScript (times beyond ±8.64e15 ms) is not modelled.
- Strings.Lower: `toLowerCase()` is modelled on ASCII letters only; Unicode case mapping is not modelled.
- Strings.Utf16Length: a string is a sequence of Unicode scalar values, so lone surrogates, which JavaScript strings may hold, are not modelled.
- Bookings.Screen: the handler reads the clock twice (`new Date()` for today's midnight and again for the 24-hour rule); the model uses one `now` for both, so for a request for today's date made just before UTC midnight, where the second reading falls on the next day, the model may answer `DateInPast` where the source answers with the lead-time error. Both are refusals.
- MonthView.FetchRangeIsMonth: stated for the years 1000 to 9999, where `${year}` has four digits.
- MonthView.MonthStepsUndo: Dafny proves it without help; it is kept because the source's navigation promises it.
- CalendarCreation.PruneHours: requires the keys to be weekdays 0..6, which the wizard's invariant ensures; the loop visits 0..6 instead of `Object.keys`.
- CalendarCreation.SubmittedSlots: `Object.entries` lists integer keys ascending, so the order 0..6 is used; keys outside 0..6 never occur in the wizard.
- CalendarCreation.CalendarWizard.NameChanged, GradeToggled, DayToggled, HourToggled, MaxChanged and Submit require the step whose component renders the handler; the rendering itself is not modelled.
- WizardSteps.MaxFallback: `Number(value)` is an `Option<real>` (`None` for NaN); infinities are not modelled.
- The availability `PUT` handler called by the editor is not part of this model, nor are the presentation components (modals, buttons, legends, step indicator) and `Step4Review`.
