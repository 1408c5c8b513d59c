/**
 * The checkbox handlers of the calendar wizard's steps. Grades (step 1)
 * and days (step 2) are toggled with `[...xs, x].sort()`, whose default
 * comparator orders the numbers by their decimal text; the periods of
 * step 3 use `WeeklySlots.ToggleHourIn`. Step 3 also reads the maximum
 * number of students through `Number(value) || 1`.
 */
module WizardSteps {
  import opened Optional
  import opened Strings
  import opened Lists
  import opened Labels

  /** String comparison by code units, as `Array.prototype.sort` compares by default. */
  function StringLeq(a: string, b: string): bool {
    if a == [] then true
    else if b == [] then false
    else if a[0] != b[0] then a[0] < b[0]
    else StringLeq(a[1..], b[1..])
  }

  lemma {:induction false} StringLeqTotal(a: string, b: string)
    ensures StringLeq(a, b) || StringLeq(b, a)
    decreases |a|
  {
    if a != [] && b != [] && a[0] == b[0] {
      StringLeqTotal(a[1..], b[1..]);
    }
  }

  lemma {:induction false} StringLeqTransitive(a: string, b: string, c: string)
    requires StringLeq(a, b) && StringLeq(b, c)
    ensures StringLeq(a, c)
    decreases |a|
  {
    if a != [] && b != [] && c != [] && a[0] == b[0] && b[0] == c[0] {
      StringLeqTransitive(a[1..], b[1..], c[1..]);
    }
  }

  lemma {:induction false} StringLeqAntisymmetric(a: string, b: string)
    requires StringLeq(a, b) && StringLeq(b, a)
    ensures a == b
    decreases |a|
  {
    if a != [] && b != [] {
      StringLeqAntisymmetric(a[1..], b[1..]);
      assert a == [a[0]] + a[1..] && b == [b[0]] + b[1..];
    }
  }

  /** The default sort order on integers: compare `${a}` and `${b}` as strings. */
  predicate DefaultLeq(a: int, b: int) {
    StringLeq(IntToString(a), IntToString(b))
  }

  /** Since `${n}` is injective, the default order is a total order on integers. */
  lemma DefaultLeqIsTotalOrder()
    ensures IsTotalOrder(DefaultLeq)
  {
    forall a: int, b: int ensures DefaultLeq(a, b) || DefaultLeq(b, a) {
      StringLeqTotal(IntToString(a), IntToString(b));
    }
    forall a: int, b: int, c: int | DefaultLeq(a, b) && DefaultLeq(b, c) ensures DefaultLeq(a, c) {
      StringLeqTransitive(IntToString(a), IntToString(b), IntToString(c));
    }
    forall a: int, b: int | DefaultLeq(a, b) && DefaultLeq(b, a) ensures a == b {
      StringLeqAntisymmetric(IntToString(a), IntToString(b));
      IntToStringInjective(a, b);
    }
  }

  /**
   * `toggleGrade` and `toggleDay`: `xs.filter(y => y !== x)` when `x` is
   * chosen, otherwise `[...xs, x].sort()`.
   */
  function ToggleChoice(list: seq<int>, x: int): (r: seq<int>)
    ensures x in r <==> x !in list
    ensures forall y :: y != x ==> (y in r <==> y in list)
    ensures x in list ==> r == Remove(list, x)
    ensures x !in list ==> SortedBy(r, DefaultLeq) && multiset(r) == multiset(list) + multiset{x}
  {
    DefaultLeqIsTotalOrder();
    Toggle(list, x, DefaultLeq)
  }

  /** A toggle keeps the list in default order and free of duplicates. */
  lemma ChoiceKeepsShape(list: seq<int>, x: int)
    requires SortedBy(list, DefaultLeq) && NoDuplicates(list)
    ensures SortedBy(ToggleChoice(list, x), DefaultLeq) && NoDuplicates(ToggleChoice(list, x))
  {
    DefaultLeqIsTotalOrder();
    ToggleKeepsShape(list, x, DefaultLeq);
  }

  /** Toggling the same value twice gives back the list it started from. */
  lemma ChoiceToggleTwice(list: seq<int>, x: int)
    requires SortedBy(list, DefaultLeq) && NoDuplicates(list)
    ensures ToggleChoice(ToggleChoice(list, x), x) == list
  {
    DefaultLeqIsTotalOrder();
    ToggleTwice(list, x, DefaultLeq);
  }

  /** The default order is the text order: choosing grade 10 after grade 7 lists 10 first. */
  lemma GradesSortAsText()
    ensures ToggleChoice([7], 10) == [10, 7]
    ensures !SortedBy(ToggleChoice([7], 10), IntLeq)
  {
    var r := ToggleChoice([7], 10);
    assert 10 !in [7];
    assert SortedBy(r, DefaultLeq) && multiset(r) == multiset([7]) + multiset{10};
    TenBeforeSeven();
    assert SortedBy([10, 7], DefaultLeq);
    assert multiset([10, 7]) == multiset([7]) + multiset{10};
    DefaultLeqIsTotalOrder();
    SortedUnique(r, [10, 7], DefaultLeq);
  }

  /** "10" comes before "7" because '1' comes before '7'. */
  lemma TenBeforeSeven()
    ensures DefaultLeq(10, 7) && !DefaultLeq(7, 10)
  {
    assert IntToString(7) == "7";
    assert NatToString(10) == NatToString(1) + [DigitChar(0)] == "10";
  }

  /** On single digits, and so on the weekdays 0..6, the text order is the numeric order. */
  lemma DigitOrderIsNumeric(a: int, b: int)
    requires 0 <= a <= 9 && 0 <= b <= 9
    ensures DefaultLeq(a, b) <==> a <= b
  {
    var ca, cb := DigitChar(a), DigitChar(b);
    assert IntToString(a) == [ca] && IntToString(b) == [cb];
    assert [ca][1..] == [] && [cb][1..] == [];
    assert StringLeq([ca], [cb]) == (ca == cb || ca < cb);
    assert ca as int - cb as int == a - b;
  }

  /** A list of single digits in default order is in ascending numeric order. */
  lemma DigitsSortNumerically(list: seq<int>)
    requires SortedBy(list, DefaultLeq)
    requires forall i :: 0 <= i < |list| ==> 0 <= list[i] <= 9
    ensures SortedBy(list, IntLeq)
  {
    forall i, j | 0 <= i < j < |list| ensures list[i] <= list[j] {
      DigitOrderIsNumeric(list[i], list[j]);
    }
  }

  /**
   * `Number(e.target.value) || 1`: the number typed, or 1 when it is zero
   * or not a number (`None` stands for `NaN`).
   */
  function MaxFallback(v: Option<real>): (r: real)
    ensures r != 0.0
    ensures v.None? || v.value == 0.0 ==> r == 1.0
    ensures v.Some? && v.value != 0.0 ==> r == v.value
  {
    if v.None? || v.value == 0.0 then 1.0 else v.value
  }

  /** Every number but zero comes through as typed, so the fallback is idempotent. */
  lemma MaxFallbackIdempotent(v: Option<real>)
    ensures MaxFallback(Some(MaxFallback(v))) == MaxFallback(v)
  {
  }
}
