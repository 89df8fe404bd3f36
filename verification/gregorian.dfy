/** The part of `java.util.Calendar` the app uses: the length of a month
    (`getActualMaximum(DAY_OF_MONTH)`) and stepping a date by whole days
    (`add(DAY_OF_MONTH, delta)`), on the proleptic Gregorian calendar. */
module Gregorian {

  predicate IsLeapYear(y: int) {
    (y % 4 == 0 && y % 100 != 0) || y % 400 == 0
  }

  /** Number of days of month `m` (1 = January) of year `y`. */
  function DaysInMonth(y: int, m: int): (r: int)
    requires 1 <= m <= 12
    ensures 28 <= r <= 31
    ensures r == 31 <==> m in {1, 3, 5, 7, 8, 10, 12}
    ensures r == 30 <==> m in {4, 6, 9, 11}
    ensures r == 29 <==> m == 2 && IsLeapYear(y)
  {
    if m == 2 then (if IsLeapYear(y) then 29 else 28)
    else if m == 4 || m == 6 || m == 9 || m == 11 then 30
    else 31
  }

  /** Sum of the lengths of months 1..m of year y. */
  function DaysBeforeEndOf(y: int, m: int): int
    requires 0 <= m <= 12
  {
    if m == 0 then 0 else DaysBeforeEndOf(y, m - 1) + DaysInMonth(y, m)
  }

  /** The twelve month lengths add up to the length of the year. */
  lemma YearLength(y: int)
    ensures DaysBeforeEndOf(y, 12) == if IsLeapYear(y) then 366 else 365
  {
    var feb := DaysInMonth(y, 2);
    assert DaysBeforeEndOf(y, 1) == 31;
    assert DaysBeforeEndOf(y, 2) == 31 + feb;
    assert DaysBeforeEndOf(y, 3) == 62 + feb;
    assert DaysBeforeEndOf(y, 4) == 92 + feb;
    assert DaysBeforeEndOf(y, 5) == 123 + feb;
    assert DaysBeforeEndOf(y, 6) == 153 + feb;
    assert DaysBeforeEndOf(y, 7) == 184 + feb;
    assert DaysBeforeEndOf(y, 8) == 215 + feb;
    assert DaysBeforeEndOf(y, 9) == 245 + feb;
    assert DaysBeforeEndOf(y, 10) == 276 + feb;
    assert DaysBeforeEndOf(y, 11) == 306 + feb;
  }

  datatype Date = Date(year: int, month: int, day: int)

  predicate ValidDate(d: Date) {
    1 <= d.month <= 12 && 1 <= d.day <= DaysInMonth(d.year, d.month)
  }

  /** The date one day later. */
  function NextDate(d: Date): (r: Date)
    requires ValidDate(d)
    ensures ValidDate(r)
    ensures r.year == d.year || (r.year == d.year + 1 && d.month == 12 && r.month == 1)
  {
    if d.day < DaysInMonth(d.year, d.month) then d.(day := d.day + 1)
    else if d.month < 12 then Date(d.year, d.month + 1, 1)
    else Date(d.year + 1, 1, 1)
  }

  /** The date one day earlier. */
  function PrevDate(d: Date): (r: Date)
    requires ValidDate(d)
    ensures ValidDate(r)
    ensures r.year == d.year || (r.year == d.year - 1 && d.month == 1 && r.month == 12)
  {
    if d.day > 1 then d.(day := d.day - 1)
    else if d.month > 1 then Date(d.year, d.month - 1, DaysInMonth(d.year, d.month - 1))
    else Date(d.year - 1, 12, 31)
  }

  /** Stepping forward then back, or back then forward, returns to the same date. */
  lemma NextPrevInverse(d: Date)
    requires ValidDate(d)
    ensures PrevDate(NextDate(d)) == d
    ensures NextDate(PrevDate(d)) == d
  {
  }

  /** `cal.add(Calendar.DAY_OF_MONTH, delta)` on a valid date. */
  function AddDays(d: Date, delta: int): (r: Date)
    requires ValidDate(d)
    ensures ValidDate(r)
    decreases if delta < 0 then -delta else delta
  {
    if delta == 0 then d
    else if delta > 0 then AddDays(NextDate(d), delta - 1)
    else AddDays(PrevDate(d), delta + 1)
  }

  /** Adding a number of days and then its opposite gives back the start date. */
  lemma {:induction false} AddDaysInverse(d: Date, delta: int)
    requires ValidDate(d)
    ensures AddDays(AddDays(d, delta), -delta) == d
    decreases if delta < 0 then -delta else delta
  {
    if delta > 0 {
      AddDaysInverse(NextDate(d), delta - 1);
      AddDaysBackStep(AddDays(NextDate(d), delta - 1), delta - 1, d);
    } else if delta < 0 {
      AddDaysInverse(PrevDate(d), delta + 1);
      AddDaysForwardStep(AddDays(PrevDate(d), delta + 1), delta + 1, d);
    }
  }

  /** Going back `k + 1` days is going back `k` days and then one more. */
  lemma {:induction false} AddDaysBackLast(e: Date, k: nat)
    requires ValidDate(e)
    ensures AddDays(e, -(k as int) - 1) == PrevDate(AddDays(e, -(k as int)))
    decreases k
  {
    if k > 0 {
      AddDaysBackLast(PrevDate(e), k - 1);
    }
  }

  /** Going forward `k + 1` days is going forward `k` days and then one more. */
  lemma {:induction false} AddDaysForwardLast(e: Date, k: nat)
    requires ValidDate(e)
    ensures AddDays(e, k + 1) == NextDate(AddDays(e, k))
    decreases k
  {
    if k > 0 {
      AddDaysForwardLast(NextDate(e), k - 1);
    }
  }

  lemma AddDaysBackStep(e: Date, k: nat, d: Date)
    requires ValidDate(e) && ValidDate(d)
    requires AddDays(e, -(k as int)) == NextDate(d)
    ensures AddDays(e, -(k as int) - 1) == d
  {
    AddDaysBackLast(e, k);
    NextPrevInverse(d);
  }

  lemma AddDaysForwardStep(e: Date, k: int, d: Date)
    requires ValidDate(e) && ValidDate(d) && k <= 0
    requires AddDays(e, -k) == PrevDate(d)
    ensures AddDays(e, -(k - 1)) == d
  {
    AddDaysForwardLast(e, -k);
    NextPrevInverse(d);
  }
}
