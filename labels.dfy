/**
 * The application's fixed catalogue (the grades offered, the number of
 * periods a day) and the Hebrew labels for grades and periods.
 */
module Labels {
  import opened Strings

  /** `GRADES`: the grades a calendar can admit. */
  const Grades: seq<int> := [7, 8, 9, 10, 11, 12]

  /** `MAX_PERIODS`: the periods of a school day are 1..12. */
  const MaxPeriods: int := 12

  /** The Hebrew letters (gematria) of the grades 1..12. */
  const GradeLetters: seq<string> :=
    ["א'", "ב'", "ג'", "ד'", "ה'", "ו'", "ז'", "ח'", "ט'", "י'", "י\"א", "י\"ב"]

  /** `GRADE_LABELS[g]` for g in 1..12. */
  function GradeLabel(g: int): string
    requires 1 <= g <= 12
  {
    "שכבה " + GradeLetters[g - 1]
  }

  const GradePrefix: string := "שכבה "

  /** `formatGrade(g)`: the table label for grades 1..12, otherwise "שכבה " and the number. */
  function FormatGrade(g: int): (r: string)
    ensures |r| > |GradePrefix| && r[..|GradePrefix|] == GradePrefix
    ensures 1 <= g <= 12 ==> r == GradeLabel(g)
    ensures !(1 <= g <= 12) ==> r[|GradePrefix|..] == IntToString(g)
  {
    if 1 <= g <= 12 then GradeLabel(g) else GradePrefix + IntToString(g)
  }

  /** `formatGradeShort(g)`: the table letters for grades 1..12, otherwise the number itself. */
  function FormatGradeShort(g: int): (r: string)
    ensures 1 <= g <= 12 ==> r == GradeLetters[g - 1]
    ensures !(1 <= g <= 12) ==> r == IntToString(g)
  {
    if 1 <= g <= 12 then GradeLetters[g - 1] else IntToString(g)
  }

  /** `formatHour(p)`: "שעה " and the period number. */
  function FormatHour(p: int): (r: string)
    ensures |r| > 4 && r[..4] == "שעה " && r[4..] == IntToString(p)
  {
    "שעה " + IntToString(p)
  }

  predicate IsHebrewLetter(c: char) {
    'א' <= c <= 'ת'
  }

  /** Each table entry starts with a Hebrew letter, and no two entries are equal. */
  lemma GradeLettersShape()
    ensures forall i :: 0 <= i < 12 ==> GradeLetters[i] != [] && IsHebrewLetter(GradeLetters[i][0])
    ensures forall i, j :: 0 <= i < j < 12 ==> GradeLetters[i] != GradeLetters[j]
  {
    forall i, j | 0 <= i < j < 12 ensures GradeLetters[i] != GradeLetters[j] {
      if j < 9 || i < 9 {
        assert GradeLetters[i][0] != GradeLetters[j][0];
      } else {
        assert GradeLetters[i][1..] != GradeLetters[j][1..];
      }
    }
  }

  /** Short labels tell the grades apart: the table letters never look like a number. */
  lemma FormatGradeShortInjective(a: int, b: int)
    requires FormatGradeShort(a) == FormatGradeShort(b)
    ensures a == b
  {
    GradeLettersShape();
    IntToStringShape(a);
    IntToStringShape(b);
    if !(1 <= a <= 12) && !(1 <= b <= 12) {
      IntToStringInjective(a, b);
    } else if 1 <= a <= 12 && 1 <= b <= 12 {
      assert GradeLetters[a - 1] == GradeLetters[b - 1];
    }
  }

  /** Full labels tell the grades apart. */
  lemma FormatGradeInjective(a: int, b: int)
    requires FormatGrade(a) == FormatGrade(b)
    ensures a == b
  {
    var k := |GradePrefix|;
    assert FormatGrade(a)[k..] == FormatGradeShort(a);
    assert FormatGrade(b)[k..] == FormatGradeShort(b);
    FormatGradeShortInjective(a, b);
  }

  /** Period labels tell the periods apart. */
  lemma FormatHourInjective(a: int, b: int)
    requires FormatHour(a) == FormatHour(b)
    ensures a == b
  {
    IntToStringInjective(a, b);
  }
}
