/** How the local store and the month sheet stay in step: the cell value
    `toggleHabitCompletion` and `removeHabit` send for the selected day, and what
    `loadCurrentMonth` reads back from it after `updateHabitStatus` has written it. */
module Sync {
  import opened Habits
  import opened Store
  import opened Sheets

  /** The cell value `value` in the column of `day` says what `h` records for that day:
      "1" iff done, "2" iff hidden. */
  predicate CellAgrees(h: Habit, day: int, value: string) {
    (day in h.completedDays <==> value == "1") && (HiddenCode(day) in h.completedDays <==> value == "2")
  }

  /** The status a found toggle sends is exactly what the toggled habit now records for
      the selected day. */
  lemma ToggleStatusAgrees(s: Store, name: string)
    requires Key(s) in s.habitsStore && IndexOfName(AllHabits(s), name).Some?
    ensures var i := IndexOfName(AllHabits(s), name).value;
      var t := ToggleHabitCompletion(s, name);
      i < |AllHabits(t.store)| && CellAgrees(AllHabits(t.store)[i], s.selectedDay, t.status)
  {
  }

  /** Hiding sends "2", which agrees with the hidden habit only when it was not done that
      day: a habit completed and then hidden keeps the day locally, but the sheet cell
      then holds only "2". */
  lemma HideStatusAgreesIffNotDone(s: Store, name: string)
    requires Key(s) in s.habitsStore && IndexOfName(AllHabits(s), name).Some?
    ensures var i := IndexOfName(AllHabits(s), name).value;
      var r := RemoveHabit(s, name);
      i < |AllHabits(r)|
      && (CellAgrees(AllHabits(r)[i], s.selectedDay, "2") <==> s.selectedDay !in AllHabits(s)[i].completedDays)
  {
    var i := IndexOfName(AllHabits(s), name).value;
    assert HiddenCode(s.selectedDay) != s.selectedDay;
  }

  /** Reading a row back gives, for a day 1..31, what the habit whose cell agreed with it
      records for that day. */
  lemma ReloadReadsCell(h: Habit, row: Row, day: int)
    requires 1 <= day <= 31
    requires CellAgrees(h, day, Cell(row, day))
    ensures day in SetOf(DecodeMonthRow(row)) <==> day in h.completedDays
    ensures HiddenCode(day) in SetOf(DecodeMonthRow(row)) <==> HiddenCode(day) in h.completedDays
  {
    DecodeMonthRowCodes(row);
  }

  /** A toggle on a day 1..31, once written by `updateHabitStatus` through a coherent
      cache, is read back from a row of that habit's name exactly as the store now
      records it. */
  lemma ToggleReadsBack(s: Store, name: string, cache: map<string, int>, title: string, rows: seq<Row>)
    requires 1 <= s.selectedDay <= 31
    requires Key(s) in s.habitsStore && IndexOfName(AllHabits(s), name).Some?
    requires CacheCoherent(cache, title, rows)
    ensures var i := IndexOfName(AllHabits(s), name).value;
      var t := ToggleHabitCompletion(s, name);
      var rows' := ApplyWrite(rows, UpdateHabitStatus(cache, title, rows, name, s.selectedDay, t.status).write);
      i < |AllHabits(t.store)|
      && (exists k :: 0 <= k < |rows'| && Cell(rows'[k], 0) == name
            && (s.selectedDay in SetOf(DecodeMonthRow(rows'[k])) <==> s.selectedDay in AllHabits(t.store)[i].completedDays)
            && (HiddenCode(s.selectedDay) in SetOf(DecodeMonthRow(rows'[k])) <==> HiddenCode(s.selectedDay) in AllHabits(t.store)[i].completedDays))
  {
    var i := IndexOfName(AllHabits(s), name).value;
    var t := ToggleHabitCompletion(s, name);
    var day := s.selectedDay;
    ToggleStatusAgrees(s, name);
    StatusWriteLands(cache, title, rows, name, day, t.status);
    var rows' := ApplyWrite(rows, UpdateHabitStatus(cache, title, rows, name, day, t.status).write);
    var k :| 0 <= k < |rows'| && Cell(rows'[k], 0) == name && Cell(rows'[k], day) == t.status
      && forall j, c :: 0 <= j < |rows| && (j != k || c != day) ==> Cell(rows'[j], c) == Cell(rows[j], c);
    ReloadReadsCell(AllHabits(t.store)[i], rows'[k], day);
  }

  /** A habit completed and then hidden on a day 1..31 is read back hidden but no longer
      done that day, although the store still records it as done. */
  lemma HideAfterCompleteLosesDay(s: Store, name: string, cache: map<string, int>, title: string, rows: seq<Row>)
    requires 1 <= s.selectedDay <= 31
    requires Key(s) in s.habitsStore && IndexOfName(AllHabits(s), name).Some?
    requires s.selectedDay in AllHabits(s)[IndexOfName(AllHabits(s), name).value].completedDays
    requires CacheCoherent(cache, title, rows)
    ensures var i := IndexOfName(AllHabits(s), name).value;
      var r := RemoveHabit(s, name);
      var rows' := ApplyWrite(rows, UpdateHabitStatus(cache, title, rows, name, s.selectedDay, "2").write);
      i < |AllHabits(r)| && s.selectedDay in AllHabits(r)[i].completedDays
      && (exists k :: 0 <= k < |rows'| && Cell(rows'[k], 0) == name
            && s.selectedDay !in SetOf(DecodeMonthRow(rows'[k]))
            && HiddenCode(s.selectedDay) in SetOf(DecodeMonthRow(rows'[k])))
  {
    var day := s.selectedDay;
    var i := IndexOfName(AllHabits(s), name).value;
    var h := AllHabits(s)[i];
    assert ReplacedAt(AllHabits(s), AllHabits(RemoveHabit(s, name)), i,
                      h.(completedDays := h.completedDays + {HiddenCode(day)}));
    StatusWriteLands(cache, title, rows, name, day, "2");
    var rows' := ApplyWrite(rows, UpdateHabitStatus(cache, title, rows, name, day, "2").write);
    var k :| 0 <= k < |rows'| && Cell(rows'[k], 0) == name && Cell(rows'[k], day) == "2"
      && forall j, c :: 0 <= j < |rows| && (j != k || c != day) ==> Cell(rows'[j], c) == Cell(rows[j], c);
    DecodeMonthRowCodes(rows'[k]);
  }
}
