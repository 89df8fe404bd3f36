/** The app's data model: a habit with its month of day codes, and a month of habits.
    A habit's `completedDays` holds two kinds of code: `d` means "done on day d",
    and `100 + d` means "hidden on day d". */
module Habits {
  import opened Seqs
  import Decimal

  const DefaultIcon: string := "Check"

  datatype Habit = Habit(name: string, completedDays: set<int>, iconName: string)

  datatype MonthData = MonthData(month: int, year: int, habits: seq<Habit>)

  /** The code stored in `completedDays` to hide a habit on `day`. */
  function HiddenCode(day: int): int {
    100 + day
  }

  /** `Habit.isCompletedOn(day)`. */
  predicate IsCompletedOn(h: Habit, day: int) {
    day in h.completedDays
  }

  predicate IsHiddenOn(h: Habit, day: int) {
    HiddenCode(day) in h.completedDays
  }

  /** `filterHidden(habits, day)`: the habits not hidden on `day`, in their original order. */
  function FilterHidden(habits: seq<Habit>, day: int): (r: seq<Habit>)
    ensures |r| <= |habits|
    ensures forall i :: 0 <= i < |r| ==> r[i] in habits && !IsHiddenOn(r[i], day)
    ensures forall i :: 0 <= i < |habits| && !IsHiddenOn(habits[i], day) ==> habits[i] in r
  {
    Filter(habits, h => !IsHiddenOn(h, day))
  }

  /** Hidden habits of two lists are dropped list by list, so order is kept. */
  lemma FilterHiddenConcat(a: seq<Habit>, b: seq<Habit>, day: int)
    ensures FilterHidden(a + b, day) == FilterHidden(a, day) + FilterHidden(b, day)
  {
    FilterConcat(a, b, h => !IsHiddenOn(h, day));
  }

  /** A list with nothing hidden on `day` is shown whole. */
  lemma FilterHiddenNoneHidden(habits: seq<Habit>, day: int)
    ensures FilterHidden(habits, day) == habits <==> forall i :: 0 <= i < |habits| ==> !IsHiddenOn(habits[i], day)
  {
    FilterAll(habits, h => !IsHiddenOn(h, day));
  }

  const MonthNames: seq<string> := [
    "January", "February", "March", "April", "May", "June",
    "July", "August", "September", "October", "November", "December"
  ]

  /** `MonthData.getFormattedMonth()`: the English month name, a space, then the year.
      The month must be 1..12, since the source indexes `monthNames[month - 1]`. */
  function FormattedMonth(m: MonthData): (r: string)
    requires 1 <= m.month <= 12
    ensures |r| == |MonthNames[m.month - 1]| + 1 + |Decimal.IntToString(m.year)|
    ensures r[|r| - |Decimal.IntToString(m.year)|..] == Decimal.IntToString(m.year)
    ensures r[..|MonthNames[m.month - 1]| + 1] == MonthNames[m.month - 1] + " "
  {
    MonthNames[m.month - 1] + " " + Decimal.IntToString(m.year)
  }

  lemma MonthNamesHaveNoSpace(k: int)
    requires 0 <= k < 12
    ensures forall i :: 0 <= i < |MonthNames[k]| ==> MonthNames[k][i] != ' '
  {
  }

  lemma MonthNamesDistinct(i: int, j: int)
    requires 0 <= i < 12 && 0 <= j < 12 && i != j
    ensures MonthNames[i] != MonthNames[j]
  {
  }

  /** In `word + " " + rest` with no space in `word`, the first space marks where
      `word` ends, so both parts can be recovered. */
  lemma SplitAtFirstSpace(w1: string, r1: string, w2: string, r2: string)
    requires forall i :: 0 <= i < |w1| ==> w1[i] != ' '
    requires forall i :: 0 <= i < |w2| ==> w2[i] != ' '
    requires w1 + " " + r1 == w2 + " " + r2
    ensures w1 == w2 && r1 == r2
  {
    var s := w1 + " " + r1;
    assert forall i :: 0 <= i < |w1| ==> s[i] == w1[i];
    assert forall i :: 0 <= i < |w2| ==> s[i] == w2[i];
    assert s[|w1|] == ' ' && s[|w2|] == ' ';
    assert |w1| == |w2|;
    assert w1 == s[..|w1|];
    assert r1 == s[|w1| + 1..];
  }

  /** Distinct (month, year) pairs are displayed as distinct strings; in particular two
      months of the same year never share a label. */
  lemma FormattedMonthInjective(a: MonthData, b: MonthData)
    requires 1 <= a.month <= 12 && 1 <= b.month <= 12
    ensures FormattedMonth(a) == FormattedMonth(b) ==> a.month == b.month && a.year == b.year
  {
    if FormattedMonth(a) != FormattedMonth(b) {
      return;
    }
    MonthNamesHaveNoSpace(a.month - 1);
    MonthNamesHaveNoSpace(b.month - 1);
    SplitAtFirstSpace(MonthNames[a.month - 1], Decimal.IntToString(a.year),
                      MonthNames[b.month - 1], Decimal.IntToString(b.year));
    if a.month != b.month {
      MonthNamesDistinct(a.month - 1, b.month - 1);
    }
    Decimal.IntToStringInjective(a.year, b.year);
  }
}
