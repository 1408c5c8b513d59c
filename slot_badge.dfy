/**
 * The badge a student sees for one slot on one day: a colour chosen by how
 * full the slot is, a `formatHour` header with a `(count/max)` counter, one
 * line per booking, and a click handler only while the slot can be booked.
 */
module SlotBadges {
  import opened Strings
  import opened Labels

  /** A booking as the badge receives it. */
  datatype BadgeBooking = BadgeBooking(id: string, studentName: string, studentGrade: int)

  /** The badge's colour: red when full, green when empty, amber otherwise. */
  datatype Shade = Full | Empty | Partial

  predicate IsFull(count: nat, maxStudents: int) {
    count >= maxStudents
  }

  predicate IsEmpty(count: nat) {
    count == 0
  }

  /** The class choice: full first, then empty, then partial. */
  function ShadeOf(count: nat, maxStudents: int): (c: Shade)
    ensures c.Full? <==> IsFull(count, maxStudents)
    ensures c.Empty? <==> !IsFull(count, maxStudents) && IsEmpty(count)
  {
    if IsFull(count, maxStudents) then Full
    else if IsEmpty(count) then Empty
    else Partial
  }

  /** With room for at least one student, each shade means one range of counts. */
  lemma ShadeRanges(count: nat, maxStudents: int)
    requires maxStudents >= 1
    ensures ShadeOf(count, maxStudents) == Empty <==> count == 0
    ensures ShadeOf(count, maxStudents) == Partial <==> 0 < count < maxStudents
    ensures ShadeOf(count, maxStudents) == Full <==> maxStudents <= count
  {
  }

  /** Full wins over empty: a slot with no room at all shows red even with no bookings. */
  lemma NoRoomIsFull(maxStudents: int)
    requires maxStudents <= 0
    ensures ShadeOf(0, maxStudents) == Full
  {
  }

  /** `isBookable && !isFull`: whether the badge gets a click handler and the "click to book" hint. */
  function Clickable(count: nat, maxStudents: int, isBookable: bool): (r: bool)
    ensures r <==> isBookable && count < maxStudents
    ensures r ==> ShadeOf(count, maxStudents) != Full
  {
    isBookable && !IsFull(count, maxStudents)
  }

  /** `(count/max)`. */
  function Counter(count: nat, maxStudents: int): string {
    "(" + IntToString(count) + "/" + IntToString(maxStudents) + ")"
  }

  /** The header line: `formatHour(periodNumber)`, a space and the counter. */
  function Header(periodNumber: int, count: nat, maxStudents: int): (r: string)
    ensures r == FormatHour(periodNumber) + " " + Counter(count, maxStudents)
  {
    FormatHour(periodNumber) + " " + Counter(count, maxStudents)
  }

  /** `name (formatGradeShort(grade))`. */
  function BookingLine(b: BadgeBooking): string {
    b.studentName + " (" + FormatGradeShort(b.studentGrade) + ")"
  }

  /** One line per booking, in the order of the bookings. */
  function Lines(bookings: seq<BadgeBooking>): (r: seq<string>)
    ensures |r| == |bookings|
    ensures forall i :: 0 <= i < |r| ==>
      |bookings[i].studentName| <= |r[i]| && r[i][..|bookings[i].studentName|] == bookings[i].studentName
  {
    seq(|bookings|, i requires 0 <= i < |bookings| => BookingLine(bookings[i]))
  }

  /** Everything the badge shows and does. */
  datatype Badge = Badge(shade: Shade, header: string, lines: seq<string>, clickable: bool)

  function RenderBadge(periodNumber: int, bookings: seq<BadgeBooking>, maxStudents: int, isBookable: bool): (r: Badge)
    ensures r.shade == ShadeOf(|bookings|, maxStudents)
    ensures r.header == Header(periodNumber, |bookings|, maxStudents)
    ensures r.lines == Lines(bookings)
    ensures r.clickable <==> isBookable && |bookings| < maxStudents
  {
    Badge(ShadeOf(|bookings|, maxStudents), Header(periodNumber, |bookings|, maxStudents),
      Lines(bookings), Clickable(|bookings|, maxStudents, isBookable))
  }

  /** A string split at the first occurrence of a separator that its left part does not contain. */
  lemma SplitAtSeparator(a: string, b: string, c: string, d: string, sep: char)
    requires sep !in a && sep !in c
    requires a + [sep] + b == c + [sep] + d
    ensures a == c && b == d
  {
    var t := a + [sep] + b;
    if |a| < |c| {
      SeparatorInside(a, b, c, d, sep);
      assert false;
    } else if |c| < |a| {
      SeparatorInside(c, d, a, b, sep);
      assert false;
    }
    assert a == t[..|a|] == c;
    assert b == t[|a| + 1..] == d;
  }

  /** If the left part of one split is the shorter, the other's left part holds the separator. */
  lemma SeparatorInside(a: string, b: string, c: string, d: string, sep: char)
    requires a + [sep] + b == c + [sep] + d
    requires |a| < |c|
    ensures sep in c
  {
    assert c[|a|] == (c + [sep] + d)[|a|] == sep;
  }

  lemma NoSlash(i: int)
    ensures '/' !in IntToString(i)
  {
    IntToStringShape(i);
  }

  /** The counter can be read back: different counts or maxima show different counters. */
  lemma CounterInjective(count: nat, maxStudents: int, count': nat, maxStudents': int)
    requires Counter(count, maxStudents) == Counter(count', maxStudents')
    ensures count == count' && maxStudents == maxStudents'
  {
    var t := Counter(count, maxStudents);
    var a, b := IntToString(count), IntToString(maxStudents);
    var c, d := IntToString(count'), IntToString(maxStudents');
    assert t[1..|t| - 1] == a + ['/'] + b;
    assert Counter(count', maxStudents')[1..|t| - 1] == c + ['/'] + d;
    NoSlash(count);
    NoSlash(count');
    SplitAtSeparator(a, b, c, d, '/');
    IntToStringInjective(count, count');
    IntToStringInjective(maxStudents, maxStudents');
  }
}
