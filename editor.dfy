/**
 * The availability editor of the teacher's dashboard: it opens on the
 * calendar's current (day, period) slots grouped by day, lets the teacher
 * toggle days and periods, tells whether anything changed, and sends the
 * edited slots with the scope the teacher picks.
 */
module AvailabilityEditing {
  import opened Optional
  import opened Strings
  import opened Lists
  import opened Validations
  import opened WeeklySlots
  import opened Labels

  /** The set of slots a list holds. */
  function KeySet(s: seq<DayHour>): set<DayHour> {
    set x | x in s
  }

  /** The days that occur in a list of slots. */
  function DaysOf(s: seq<DayHour>): set<int> {
    set x | x in s :: x.day
  }

  /** The periods of the slots on day `d`, in list order. */
  function HoursOn(s: seq<DayHour>, d: int): (r: seq<int>)
    ensures forall h :: h in r <==> DayHour(d, h) in s
  {
    if s == [] then []
    else HoursOn(s[..|s| - 1], d) + (if s[|s| - 1].day == d then [s[|s| - 1].hour] else [])
  }


  /** `${day}-${hour}`. */
  function KeyText(x: DayHour): string {
    IntToString(x.day) + "-" + IntToString(x.hour)
  }

  /** The first `-` at or after position `k`, or the length when there is none. */
  function DashFrom(t: string, k: nat): (r: nat)
    requires k <= |t|
    ensures k <= r <= |t|
    decreases |t| - k
  {
    if k == |t| then |t| else if t[k] == '-' then k else DashFrom(t, k + 1)
  }

  lemma {:induction false} DashFromAfter(a: string, rest: string, k: nat)
    requires k <= |a|
    requires forall i :: k <= i < |a| ==> a[i] != '-'
    ensures DashFrom(a + "-" + rest, k) == |a|
    decreases |a| - k
  {
    var t := a + "-" + rest;
    if k < |a| {
      assert t[k] == a[k];
      DashFromAfter(a, rest, k + 1);
    } else {
      assert t[k] == '-';
    }
  }

  /** In a key, the first `-` after the first character ends the day's number. */
  lemma KeyDash(x: DayHour)
    ensures DashFrom(KeyText(x), 1) == |IntToString(x.day)|
  {
    IntToStringShape(x.day);
    DashFromAfter(IntToString(x.day), IntToString(x.hour), 1);
  }

  /** Different slots have different keys. */
  lemma KeyTextInjective(x: DayHour, y: DayHour)
    requires KeyText(x) == KeyText(y)
    ensures x == y
  {
    var a, b := IntToString(x.day), IntToString(y.day);
    var t := KeyText(x);
    KeyDash(x);
    KeyDash(y);
    assert a == t[..|a|] == b;
    assert IntToString(x.hour) == t[|a| + 1..] == IntToString(y.hour);
    IntToStringInjective(x.day, y.day);
    IntToStringInjective(x.hour, y.hour);
  }

  function KeyTexts(s: set<DayHour>): set<string> {
    set x | x in s :: KeyText(x)
  }

  /** Two sets of slots have the same keys exactly when they are the same set. */
  lemma KeyTextsEqual(a: set<DayHour>, b: set<DayHour>)
    ensures KeyTexts(a) == KeyTexts(b) <==> a == b
  {
    if KeyTexts(a) == KeyTexts(b) {
      forall x | x in a ensures x in b {
        assert KeyText(x) in KeyTexts(b);
        var y :| y in b && KeyText(y) == KeyText(x);
        KeyTextInjective(x, y);
      }
      forall x | x in b ensures x in a {
        assert KeyText(x) in KeyTexts(a);
        var y :| y in a && KeyText(y) == KeyText(x);
        KeyTextInjective(x, y);
      }
    }
  }

  /** The request `handleScopeSelect` sends: `{ scope, slots }` to this calendar. */
  datatype SaveRequest = SaveRequest(calendarId: string, scope: Scope, slots: seq<DayHour>)

  /** What became of the request: saved, refused with an optional message, or not delivered. */
  datatype SaveResponse = Saved | Refused(message: Option<string>) | NetworkFailure

  const SaveFailedMessage: string := "שמירה נכשלה."
  const SomethingWrongMessage: string := "משהו השתבש. נסה שוב."

  class AvailabilityEditor {
    const calendarId: string
    const currentSlots: seq<DayHour>
    var isEditorOpen: bool
    var isScopeDialogOpen: bool
    var loading: bool
    var error: string
    var selectedDays: seq<int>
    var hoursByDay: map<int, seq<int>>

    /** The selected days are ascending and distinct, and every day's periods are ascending. */
    ghost predicate Valid()
      reads this
    {
      && SortedBy(selectedDays, IntLeq) && NoDuplicates(selectedDays)
      && forall d :: d in hoursByDay ==> SortedBy(hoursByDay[d], IntLeq)
    }

    /** The slots the editor would send: the periods of the selected days, day by day. */
    function EditedSlots(): seq<DayHour>
      reads this
    {
      Flatten(selectedDays, hoursByDay)
    }

    /** The edited slots differ, as a set, from the current ones. */
    predicate Changed()
      reads this
    {
      KeySet(currentSlots) != KeySet(EditedSlots())
    }

    constructor (calendarId: string, currentSlots: seq<DayHour>)
      ensures this.calendarId == calendarId && this.currentSlots == currentSlots
      ensures !isEditorOpen && !isScopeDialogOpen && !loading && error == ""
      ensures selectedDays == [] && hoursByDay == map[]
      ensures Valid()
    {
      this.calendarId := calendarId;
      this.currentSlots := currentSlots;
      isEditorOpen := false;
      isScopeDialogOpen := false;
      loading := false;
      error := "";
      selectedDays := [];
      hoursByDay := map[];
    }

    /**
     * `openEditor`: the distinct days of the current slots, ascending, and
     * per day the periods of its slots, ascending; nothing has changed yet.
     */
    method OpenEditor()
      modifies this
      ensures GroupedOn(currentSlots, selectedDays, hoursByDay)
      ensures Valid() && !Changed()
      ensures isEditorOpen && error == ""
      ensures isScopeDialogOpen == old(isScopeDialogOpen) && loading == old(loading)
    {
      var days, hbd := GroupSlots(currentSlots);
      GroupedFacts(currentSlots, days, hbd);
      selectedDays := days;
      hoursByDay := hbd;
      error := "";
      isEditorOpen := true;
    }

    /**
     * `toggleDay(day)`: a selected day is removed with its periods; an
     * unselected one is inserted in order, with no periods added.
     */
    method ToggleDay(day: int)
      requires Valid()
      modifies this
      ensures Valid()
      ensures selectedDays == Toggle(old(selectedDays), day, IntLeq)
      ensures day in old(selectedDays) ==> hoursByDay == old(hoursByDay) - {day}
      ensures day !in old(selectedDays) ==> hoursByDay == old(hoursByDay)
      ensures isEditorOpen == old(isEditorOpen) && isScopeDialogOpen == old(isScopeDialogOpen)
      ensures loading == old(loading) && error == old(error)
    {
      IntLeqIsTotalOrder();
      ToggleKeepsShape(selectedDays, day, IntLeq);
      if day in selectedDays {
        selectedDays := Toggle(selectedDays, day, IntLeq);
        hoursByDay := hoursByDay - {day};
      } else {
        selectedDays := Toggle(selectedDays, day, IntLeq);
      }
    }

    /** `toggleHour(day, hour)`: flip `hour` in the day's periods, keeping them ascending. */
    method ToggleHour(day: int, hour: int)
      requires Valid()
      modifies this
      ensures Valid()
      ensures hoursByDay == ToggleHourIn(old(hoursByDay), day, hour)
      ensures selectedDays == old(selectedDays)
      ensures isEditorOpen == old(isEditorOpen) && isScopeDialogOpen == old(isScopeDialogOpen)
      ensures loading == old(loading) && error == old(error)
    {
      ToggleHourKeepsShape(hoursByDay, day, hour);
      ToggleHourFlips(hoursByDay, day, hour);
      hoursByDay := ToggleHourIn(hoursByDay, day, hour);
    }

    /** The `${day}-${hour}` keys of the edited slots, built as `hasChanges` builds them. */
    method EditedKeys() returns (keys: seq<string>)
      ensures keys == KeyTextList(EditedSlots())
    {
      keys := [];
      var i := 0;
      while i < |selectedDays|
        invariant 0 <= i <= |selectedDays|
        invariant keys == KeyTextList(Flatten(selectedDays[..i], hoursByDay))
      {
        var day := selectedDays[i];
        var hours := HoursOf(hoursByDay, day);
        assert selectedDays[..i + 1][..i] == selectedDays[..i];
        ghost var done := Flatten(selectedDays[..i], hoursByDay);
        var j := 0;
        while j < |hours|
          invariant 0 <= j <= |hours|
          invariant keys == KeyTextList(done + Row(day, hours[..j]))
        {
          KeyTextListAppend(done + Row(day, hours[..j]), DayHour(day, hours[j]));
          assert Row(day, hours[..j + 1]) == Row(day, hours[..j]) + [DayHour(day, hours[j])];
          assert done + Row(day, hours[..j + 1]) == done + Row(day, hours[..j]) + [DayHour(day, hours[j])];
          keys := keys + [KeyText(DayHour(day, hours[j]))];
          j := j + 1;
        }
        assert hours[..j] == hours;
        i := i + 1;
      }
      assert selectedDays[..i] == selectedDays;
    }

    /**
     * `hasChanges()`: the set of keys of the current slots against that of
     * the edited ones.
     */
    method HasChanges() returns (r: bool)
      ensures r == Changed()
    {
      var currentSet := set x | x in currentSlots :: KeyText(x);
      var editedKeys := EditedKeys();
      var editedSet := set t | t in editedKeys;
      KeyTextListMembers(EditedSlots());
      KeyTextsEqual(KeySet(currentSlots), KeySet(EditedSlots()));
      assert currentSet == KeyTexts(KeySet(currentSlots));
      r := KeySetsDiffer(currentSet, editedSet);
    }

    /** `handleSaveClick`: with nothing changed the editor just closes; otherwise the scope dialog opens. */
    method HandleSaveClick()
      modifies this
      ensures !old(Changed()) ==> !isEditorOpen && isScopeDialogOpen == old(isScopeDialogOpen)
      ensures old(Changed()) ==> isScopeDialogOpen && isEditorOpen == old(isEditorOpen)
      ensures selectedDays == old(selectedDays) && hoursByDay == old(hoursByDay)
      ensures loading == old(loading) && error == old(error)
    {
      var changed := HasChanges();
      if !changed {
        isEditorOpen := false;
        return;
      }
      isScopeDialogOpen := true;
    }

    /**
     * `handleScopeSelect(scope)`: the request that is sent (the periods of
     * the selected days, day by day) and the dialog state once `response`
     * has come back.
     */
    method HandleScopeSelect(scope: Scope, response: SaveResponse) returns (request: SaveRequest)
      modifies this
      ensures request == SaveRequest(calendarId, scope, old(EditedSlots()))
      ensures selectedDays == old(selectedDays) && hoursByDay == old(hoursByDay)
      ensures !loading && !isScopeDialogOpen
      ensures response.Saved? ==> !isEditorOpen && error == ""
      ensures response.Refused? ==>
        && isEditorOpen == old(isEditorOpen)
        && error == (if response.message.Some? && response.message.value != "" then response.message.value else SaveFailedMessage)
      ensures response.NetworkFailure? ==> isEditorOpen == old(isEditorOpen) && error == SomethingWrongMessage
    {
      loading := true;
      error := "";
      var slots := CollectSlots(selectedDays, hoursByDay);
      request := SaveRequest(calendarId, scope, slots);

      match response {
        case Refused(message) =>
          error := if message.Some? && message.value != "" then message.value else SaveFailedMessage;
          isScopeDialogOpen := false;
        case Saved =>
          isScopeDialogOpen := false;
          isEditorOpen := false;
        case NetworkFailure =>
          error := SomethingWrongMessage;
          isScopeDialogOpen := false;
      }
      loading := false;
    }
  }

  /**
   * The state `openEditor` builds from `slots`: the days that occur,
   * ascending and each once, and per day the ascending list of its periods.
   */
  ghost predicate GroupedOn(slots: seq<DayHour>, days: seq<int>, hbd: map<int, seq<int>>) {
    && SortedBy(days, IntLeq) && NoDuplicates(days)
    && (forall d :: d in days <==> d in DaysOf(slots))
    && hbd.Keys == DaysOf(slots)
    && (forall d :: d in hbd ==> hbd[d] == Sort(HoursOn(slots, d), IntLeq))
  }

  /** The steps of `openEditor` that compute its state. */
  method GroupSlots(slots: seq<DayHour>) returns (days: seq<int>, hbd: map<int, seq<int>>)
    ensures GroupedOn(slots, days, hbd)
  {
    var distinct := DistinctDays(slots);
    days := Sort(distinct, IntLeq);
    IntLeqIsTotalOrder();
    SortSorted(distinct, IntLeq);
    NoDuplicatesMultiset(distinct);
    NoDuplicatesMultiset(days);
    assert forall d :: d in days <==> d in multiset(distinct);
    var grouped := GroupByDay(slots);
    hbd := SortEachDay(grouped, days);
    assert grouped.Keys == DaysOf(slots);
    forall d | d in hbd ensures hbd[d] == Sort(HoursOn(slots, d), IntLeq) {
      assert grouped[d] == HoursOn(slots, d);
    }
  }

  /** The grouped state keeps its periods ascending and holds exactly the slots it was built from. */
  lemma GroupedFacts(slots: seq<DayHour>, days: seq<int>, hbd: map<int, seq<int>>)
    requires GroupedOn(slots, days, hbd)
    ensures forall d :: d in hbd ==> SortedBy(hbd[d], IntLeq)
    ensures KeySet(Flatten(days, hbd)) == KeySet(slots)
  {
    IntLeqIsTotalOrder();
    forall d | d in hbd ensures SortedBy(hbd[d], IntLeq) {
      SortSorted(HoursOn(slots, d), IntLeq);
    }
    forall x ensures x in KeySet(Flatten(days, hbd)) <==> x in KeySet(slots) {
      GroupedMember(slots, days, hbd, x);
    }
  }

  lemma GroupedMember(slots: seq<DayHour>, days: seq<int>, hbd: map<int, seq<int>>, x: DayHour)
    requires GroupedOn(slots, days, hbd)
    ensures x in Flatten(days, hbd) <==> x in slots
  {
    FlattenMembership(days, hbd, x);
    if x in slots {
      assert x.day in DaysOf(slots);
      assert x.hour in HoursOn(slots, x.day);
      assert x.hour in multiset(hbd[x.day]);
    }
    if x in Flatten(days, hbd) {
      assert x.hour in multiset(HoursOn(slots, x.day));
    }
  }

  /** `[...new Set(slots.map(s => s.dayOfWeek))]`: each day once, in order of first occurrence. */
  method DistinctDays(slots: seq<DayHour>) returns (days: seq<int>)
    ensures NoDuplicates(days)
    ensures forall d :: d in days <==> d in DaysOf(slots)
  {
    days := [];
    var i := 0;
    while i < |slots|
      invariant 0 <= i <= |slots|
      invariant NoDuplicates(days)
      invariant forall d :: d in days <==> d in DaysOf(slots[..i])
    {
      assert slots[..i + 1] == slots[..i] + [slots[i]];
      if slots[i].day !in days {
        days := days + [slots[i].day];
      }
      i := i + 1;
    }
    assert slots[..i] == slots;
  }

  /** The `hbd` loop of `openEditor`: per day that occurs, its periods in list order. */
  method GroupByDay(slots: seq<DayHour>) returns (hbd: map<int, seq<int>>)
    ensures GroupedPrefix(slots, hbd)
  {
    hbd := map[];
    var i := 0;
    while i < |slots|
      invariant 0 <= i <= |slots|
      invariant GroupedPrefix(slots[..i], hbd)
    {
      var s := slots[i];
      GroupStep(slots[..i], s, hbd);
      assert slots[..i + 1] == slots[..i] + [s];
      hbd := hbd[s.day := HoursOf(hbd, s.day) + [s.hour]];
      i := i + 1;
    }
    assert slots[..i] == slots;
  }

  /** `hbd` holds, for each day of `done`, that day's periods in list order. */
  ghost predicate GroupedPrefix(done: seq<DayHour>, hbd: map<int, seq<int>>) {
    hbd.Keys == DaysOf(done) && forall d :: d in hbd ==> hbd[d] == HoursOn(done, d)
  }

  /** One iteration of the grouping loop: push the slot's period under its day. */
  lemma GroupStep(done: seq<DayHour>, s: DayHour, hbd: map<int, seq<int>>)
    requires GroupedPrefix(done, hbd)
    ensures GroupedPrefix(done + [s], hbd[s.day := HoursOf(hbd, s.day) + [s.hour]])
  {
    HoursOnSnoc(done, s);
    DaysOfSnoc(done, s);
    if s.day !in hbd {
      HoursOnAbsent(done, s.day);
    }
  }

  lemma HoursOnSnoc(pre: seq<DayHour>, s: DayHour)
    ensures forall d :: HoursOn(pre + [s], d) == HoursOn(pre, d) + (if s.day == d then [s.hour] else [])
  {
    assert (pre + [s])[..|pre|] == pre;
  }

  lemma DaysOfSnoc(pre: seq<DayHour>, s: DayHour)
    ensures DaysOf(pre + [s]) == DaysOf(pre) + {s.day}
  {
  }

  lemma {:induction false} HoursOnAbsent(s: seq<DayHour>, d: int)
    requires d !in DaysOf(s)
    ensures HoursOn(s, d) == []
    decreases |s|
  {
    if s != [] {
      assert s[|s| - 1] in s;
      assert DaysOf(s[..|s| - 1]) <= DaysOf(s);
      HoursOnAbsent(s[..|s| - 1], d);
    }
  }

  /**
   * The sorting loop of `openEditor`: every day's periods sorted, taking the
   * keys in the order `keys` lists them.
   */
  method SortEachDay(hbd: map<int, seq<int>>, keys: seq<int>) returns (sorted: map<int, seq<int>>)
    requires forall d :: d in hbd <==> d in keys
    ensures sorted.Keys == hbd.Keys
    ensures forall d :: d in sorted ==> sorted[d] == Sort(hbd[d], IntLeq)
    ensures forall d :: d in sorted ==> SortedBy(sorted[d], IntLeq)
  {
    sorted := hbd;
    var i := 0;
    while i < |keys|
      invariant 0 <= i <= |keys| && sorted.Keys == hbd.Keys
      invariant forall d :: d in sorted ==> sorted[d] == if d in keys[..i] then Sort(hbd[d], IntLeq) else hbd[d]
    {
      var d := keys[i];
      assert keys[..i + 1] == keys[..i] + [d];
      sorted := sorted[d := Sort(hbd[d], IntLeq)];
      i := i + 1;
    }
    assert keys[..i] == keys;
    IntLeqIsTotalOrder();
    forall d | d in sorted ensures SortedBy(sorted[d], IntLeq) {
      SortSorted(hbd[d], IntLeq);
    }
  }

  /** Two key sets differ: by size, or by a key of the first missing from the second. */
  method KeySetsDiffer(currentSet: set<string>, editedSet: set<string>) returns (r: bool)
    ensures r <==> currentSet != editedSet
  {
    if |currentSet| != |editedSet| {
      return true;
    }
    var pending := currentSet;
    while pending != {}
      invariant pending <= currentSet
      invariant forall t :: t in currentSet && t !in pending ==> t in editedSet
      decreases |pending|
    {
      var key :| key in pending;
      if key !in editedSet {
        return true;
      }
      pending := pending - {key};
    }
    SubsetSameSize(currentSet, editedSet);
    return false;
  }

  /** The keys of a list of slots, in list order. */
  function KeyTextList(s: seq<DayHour>): (r: seq<string>)
    ensures |r| == |s| && forall k :: 0 <= k < |s| ==> r[k] == KeyText(s[k])
  {
    seq(|s|, k requires 0 <= k < |s| => KeyText(s[k]))
  }

  lemma KeyTextListAppend(s: seq<DayHour>, x: DayHour)
    ensures KeyTextList(s + [x]) == KeyTextList(s) + [KeyText(x)]
  {
  }

  lemma KeyTextListMembers(s: seq<DayHour>)
    ensures (set t | t in KeyTextList(s)) == KeyTexts(KeySet(s))
  {
    forall t | t in KeyTextList(s) ensures t in KeyTexts(KeySet(s)) {
      var k :| 0 <= k < |s| && KeyTextList(s)[k] == t;
      assert s[k] in KeySet(s);
    }
    forall t | t in KeyTexts(KeySet(s)) ensures t in KeyTextList(s) {
      var x :| x in KeySet(s) && KeyText(x) == t;
      var k :| 0 <= k < |s| && s[k] == x;
      assert KeyTextList(s)[k] == t;
    }
  }

  /** Hours stored under a day that is not selected are not sent. */
  lemma UnselectedDaysNotSent(days: seq<int>, hoursByDay: map<int, seq<int>>, x: DayHour)
    requires x in Flatten(days, hoursByDay)
    ensures x.day in days
  {
    FlattenMembership(days, hoursByDay, x);
  }

  /** The request body passes `availabilityEditSchema` when the days are 0..6 and the periods 1..12. */
  lemma RequestIsValidEdit(days: seq<int>, hoursByDay: map<int, seq<int>>, scope: Scope)
    requires forall i :: 0 <= i < |days| ==> 0 <= days[i] <= 6
    requires forall d :: d in hoursByDay ==> forall k :: 0 <= k < |hoursByDay[d]| ==> 1 <= hoursByDay[d][k] <= MaxPeriods
    ensures ValidAvailabilityEdit(AvailabilityEditInput(ScopeName(scope), SlotInputs(Flatten(days, hoursByDay))))
  {
    FlattenIsValid(days, hoursByDay);
  }
}
