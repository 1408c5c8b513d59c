/**
 * One cell of the student's month grid. The cell keeps the bookings whose
 * `YYYY-MM-DD` prefix is the cell's UTC date, and renders one badge per
 * slot with the bookings of that slot.
 */
module DayCells {
  import opened Optional
  import opened Strings
  import opened Lists
  import opened CalendarDates
  import opened SlotBadges
  import Bookings

  /** An availability slot as the month view receives it. */
  datatype ViewSlot = ViewSlot(id: string, dayOfWeek: int, periodNumber: int)

  /** A booking as the bookings listing sends it: the date is an ISO text. */
  datatype ViewBooking = ViewBooking(id: string, studentName: string, studentGrade: int, date: string, slotId: string)

  /** `b.date.split("T")[0] === date.toISOString().split("T")[0]`. */
  predicate OnCell(b: ViewBooking, cellDate: int) {
    BeforeT(b.date) == FormatDate(cellDate)
  }

  /** `dayBookings`: the bookings dated on the cell's day, in the listing's order. */
  function DayBookings(bookings: seq<ViewBooking>, cellDate: int): (r: seq<ViewBooking>)
    ensures |r| <= |bookings|
    ensures forall b :: b in r <==> b in bookings && OnCell(b, cellDate)
    ensures forall i :: 0 <= i < |r| ==> OnCell(r[i], cellDate)
  {
    Filter(bookings, (b: ViewBooking) => OnCell(b, cellDate))
  }

  function Strip(b: ViewBooking): BadgeBooking {
    BadgeBooking(b.id, b.studentName, b.studentGrade)
  }

  function StripAll(s: seq<ViewBooking>): (r: seq<BadgeBooking>)
    ensures |r| == |s|
    ensures forall i :: 0 <= i < |s| ==> r[i] == Strip(s[i])
  {
    seq(|s|, i requires 0 <= i < |s| => Strip(s[i]))
  }

  /** `slotBookings`: the cell's bookings of one slot, cut down to what the badge shows. */
  function SlotBookings(dayBookings: seq<ViewBooking>, slotId: string): (r: seq<BadgeBooking>)
    ensures |r| <= |dayBookings|
  {
    StripAll(Filter(dayBookings, (b: ViewBooking) => b.slotId == slotId))
  }

  /** The bookings a badge lists, picked out of the whole listing in one pass. */
  function ShownUnder(bookings: seq<ViewBooking>, cellDate: int, slotId: string): seq<ViewBooking> {
    Filter(bookings, (b: ViewBooking) => OnCell(b, cellDate) && b.slotId == slotId)
  }

  /** Filtering twice is filtering once by both conditions. */
  lemma {:induction false} FilterTwice<T(!new)>(s: seq<T>, p: T -> bool, q: T -> bool, both: T -> bool)
    requires forall x :: both(x) == (p(x) && q(x))
    ensures Filter(Filter(s, p), q) == Filter(s, both)
  {
    if s != [] {
      FilterTwice(s[1..], p, q, both);
      var f := Filter(s, p);
      if p(s[0]) {
        assert f == [s[0]] + Filter(s[1..], p);
        assert f != [] && f[0] == s[0] && f[1..] == Filter(s[1..], p);
      } else {
        assert f == Filter(s[1..], p);
      }
    }
  }

  /** Two lists that agree position by position on two conditions keep as many elements. */
  lemma {:induction false} FilterCountsAgree<A(!new), B(!new)>(s: seq<A>, t: seq<B>, p: A -> bool, q: B -> bool)
    requires |s| == |t|
    requires forall i :: 0 <= i < |s| ==> p(s[i]) == q(t[i])
    ensures |Filter(s, p)| == |Filter(t, q)|
  {
    if s != [] {
      FilterCountsAgree(s[1..], t[1..], p, q);
      assert p(s[0]) == q(t[0]);
    }
  }

  /** The badge under a slot lists exactly the cell's bookings of that slot, in the listing's order. */
  lemma SlotBookingsAreShownUnder(bookings: seq<ViewBooking>, cellDate: int, slotId: string)
    ensures SlotBookings(DayBookings(bookings, cellDate), slotId) == StripAll(ShownUnder(bookings, cellDate, slotId))
    ensures forall b :: b in ShownUnder(bookings, cellDate, slotId) <==>
      b in bookings && OnCell(b, cellDate) && b.slotId == slotId
  {
    FilterTwice(bookings, (b: ViewBooking) => OnCell(b, cellDate), (b: ViewBooking) => b.slotId == slotId,
      (b: ViewBooking) => OnCell(b, cellDate) && b.slotId == slotId);
  }

  /** A badge for each slot, in the order of the slots, and where a click on it leads. */
  datatype CellBadge = CellBadge(slot: ViewSlot, badge: Badge, click: Option<(ViewSlot, int)>)

  /** `slots.map(...)`: each badge gets the slot's bookings; its click reports the slot and the cell's date. */
  function Badges(cellDate: int, slots: seq<ViewSlot>, bookings: seq<ViewBooking>, maxStudents: int, isBookable: bool): (r: seq<CellBadge>)
    ensures |r| == |slots|
    ensures forall i :: 0 <= i < |slots| ==>
      var shown := SlotBookings(DayBookings(bookings, cellDate), slots[i].id);
      && r[i].slot == slots[i]
      && r[i].badge == RenderBadge(slots[i].periodNumber, shown, maxStudents, isBookable)
      && (r[i].click.Some? <==> isBookable && |shown| < maxStudents)
      && (r[i].click.Some? ==> r[i].click.value == (slots[i], cellDate))
  {
    var dayBookings := DayBookings(bookings, cellDate);
    seq(|slots|, i requires 0 <= i < |slots| =>
      var badge := RenderBadge(slots[i].periodNumber, SlotBookings(dayBookings, slots[i].id), maxStudents, isBookable);
      CellBadge(slots[i], badge, if badge.clickable then Some((slots[i], cellDate)) else None))
  }

  // ---------------------------------------------------------------------------
  // The cell against the stored bookings

  /** How a stored booking reaches the client: its date written by `toISOString()`. */
  function View(b: Bookings.Booking, id: string): ViewBooking {
    ViewBooking(id, b.studentName, b.studentGrade, ToIsoString(b.date), b.slotId)
  }

  function Views(ledger: seq<Bookings.Booking>, ids: seq<string>): (r: seq<ViewBooking>)
    requires |ids| == |ledger|
    ensures |r| == |ledger|
    ensures forall i :: 0 <= i < |ledger| ==> r[i] == View(ledger[i], ids[i])
  {
    seq(|ledger|, i requires 0 <= i < |ledger| => View(ledger[i], ids[i]))
  }

  /** A stored booking is shown in the cell of its own UTC day and in no other cell. */
  lemma OnCellIffSameDay(b: Bookings.Booking, id: string, cellDate: int)
    ensures OnCell(View(b, id), cellDate) <==> Day(b.date) == Day(cellDate)
  {
    var c := CivilFromDay(Day(b.date));
    DateTextHasNoT(c);
    BeforeTOfConcat(DateText(c), TimeText(b.date % MsPerDay));
    FormatDateOfDay(b.date, cellDate);
  }

  /**
   * When the stored dates and the cell's date are UTC midnights, as the
   * server stores them and as the grid builds them, a badge counts exactly
   * the bookings the server counts for that slot and date.
   */
  lemma ShownCount(ledger: seq<Bookings.Booking>, ids: seq<string>, cellDate: int, slotId: string)
    requires |ids| == |ledger|
    requires cellDate % MsPerDay == 0
    requires forall b :: b in ledger ==> b.date % MsPerDay == 0
    ensures |ShownUnder(Views(ledger, ids), cellDate, slotId)| == |Bookings.Existing(ledger, slotId, cellDate)|
  {
    var v := Views(ledger, ids);
    forall i | 0 <= i < |ledger|
      ensures (OnCell(v[i], cellDate) && v[i].slotId == slotId) == (ledger[i].slotId == slotId && ledger[i].date == cellDate)
    {
      OnCellIffSameDay(ledger[i], ids[i], cellDate);
      assert ledger[i] in ledger;
    }
    FilterCountsAgree(v, ledger, (b: ViewBooking) => OnCell(b, cellDate) && b.slotId == slotId,
      (b: Bookings.Booking) => b.slotId == slotId && b.date == cellDate);
  }

  /** So the badge turns red exactly when the server would answer that the slot is full. */
  lemma FullAsServer(ledger: seq<Bookings.Booking>, ids: seq<string>, cellDate: int, slot: ViewSlot, maxStudents: int)
    requires |ids| == |ledger|
    requires cellDate % MsPerDay == 0
    requires forall b :: b in ledger ==> b.date % MsPerDay == 0
    ensures var shown := SlotBookings(DayBookings(Views(ledger, ids), cellDate), slot.id);
      ShadeOf(|shown|, maxStudents) == Full <==> |Bookings.Existing(ledger, slot.id, cellDate)| >= maxStudents
  {
    SlotBookingsAreShownUnder(Views(ledger, ids), cellDate, slot.id);
    ShownCount(ledger, ids, cellDate, slot.id);
  }
}
